/** Threads that wait for each other. A constructor may open another object, so a thread can wait for an
    object that another thread is constructing while that thread waits for one of its own. */
module Deadlock {
  import opened Sequences
  import opened Graphs
  import opened Cycles
  import opened CtorProtocol

  /** The innermost call of `t` stands at an entry that `u` is constructing. */
  ghost predicate BlockedOn(s: State, t: Tid, u: Tid) {
    && !Exiting(s, t) && Stack(s, t) != [] && u != t
    && var f := Top(s, t);
       && (f.pc == Checking || f.pc == Waiting) && f.i < |f.queue|
       && f.queue[f.i] in s.visitor && s.visitor[f.queue[f.i]] == u
  }

  ghost predicate Blocked(s: State, t: Tid) {
    exists u :: BlockedOn(s, t, u)
  }

  ghost predicate BlockedWithin(s: State, t: Tid, ts: set<Tid>) {
    exists u :: u in ts && BlockedOn(s, t, u)
  }

  /** Threads that are all blocked on each other. */
  ghost predicate Deadlocked(s: State, ts: set<Tid>) {
    ts != {} && forall t :: t in ts ==> BlockedWithin(s, t, ts)
  }

  // ----- A deadlock is for ever -----

  /** A thread at an entry of another stays there. */
  lemma StaysPut(s: State, a: Action, w: set<Obj>, t: Tid, u: Tid)
    requires Enabled(s, a) && BlockedOn(s, t, u)
    ensures Stack(Step(s, a, w), t) != [] && !Exiting(Step(s, a, w), t)
    ensures var f, f' := Top(s, t), Top(Step(s, a, w), t);
            f'.queue == f.queue && f'.i == f.i && (f'.pc == Checking || f'.pc == Waiting)
  {
    ExitingStays(s, a, w, t, u);
    if t == Actor(s, a) {
      StackStep(s, a, w);
      NotItsStep(s, a, t, u);
      hide Step, Enabled;
    } else {
      OthersKeepStacks(s, a, w);
      hide Step, Enabled;
    }
  }

  /** What a thread at an entry of another can do: wait and wake. */
  lemma NotItsStep(s: State, a: Action, t: Tid, u: Tid)
    requires Enabled(s, a) && BlockedOn(s, t, u) && t == Actor(s, a)
    ensures a.Wait? || a.Wake? || (!a.Call? && !a.Finish? && !ChangesFrame(a))
  {
  }

  lemma ExitingStays(s: State, a: Action, w: set<Obj>, t: Tid, u: Tid)
    requires Enabled(s, a) && BlockedOn(s, t, u)
    ensures !Exiting(Step(s, a, w), t)
  {
  }

  /** An object stays visited by a thread that is not about to end its constructors. */
  lemma VisitorStays(s: State, a: Action, w: set<Obj>, p: Obj, u: Tid)
    requires Nested(s) && Owned(s) && Enabled(s, a) && p in s.visitor && s.visitor[p] == u
    requires Stack(s, u) != [] && Top(s, u).pc != Relocking
    ensures p in Step(s, a, w).visitor && Step(s, a, w).visitor[p] == u
  {
    OwnedStep(s, a, w);
    hide Nested, Owned;
  }

  /** `t`'s innermost call stands at the same entry in both states. */
  ghost predicate SamePlace(s: State, s': State, t: Tid) {
    Stack(s, t) != [] && Stack(s', t) != [] && Top(s', t).i == Top(s, t).i && Top(s', t).queue == Top(s, t).queue
  }

  lemma BlockedStep(s: State, a: Action, w: set<Obj>, t: Tid, u: Tid)
    requires Inv(s, w) && Enabled(s, a) && BlockedOn(s, t, u) && Blocked(s, u)
    ensures BlockedOn(Step(s, a, w), t, u) && SamePlace(s, Step(s, a, w), t)
  {
    hide Nested, Owned, LockHeld, Once, Passed, FiniOrder, Finalized, Step, Enabled;
    StaysPut(s, a, w, t, u);
    VisitorStays(s, a, w, Top(s, t).queue[Top(s, t).i], u);
  }

  lemma DeadlockStep(s: State, a: Action, w: set<Obj>, ts: set<Tid>)
    requires Inv(s, w) && Enabled(s, a) && Deadlocked(s, ts)
    ensures Deadlocked(Step(s, a, w), ts) && forall t :: t in ts ==> SamePlace(s, Step(s, a, w), t)
  {
    hide Inv, Step, Enabled, BlockedOn, BlockedWithin, SamePlace;
    var s' := Step(s, a, w);
    forall t | t in ts ensures BlockedWithin(s', t, ts) && SamePlace(s, s', t) {
      WithinStep(s, a, w, ts, t);
    }
  }

  lemma WithinStep(s: State, a: Action, w: set<Obj>, ts: set<Tid>, t: Tid)
    requires Inv(s, w) && Enabled(s, a) && Deadlocked(s, ts) && t in ts
    ensures BlockedWithin(Step(s, a, w), t, ts) && SamePlace(s, Step(s, a, w), t)
  {
    hide Inv, Step, Enabled, BlockedOn, SamePlace;
    assert BlockedWithin(s, t, ts);
    var u :| u in ts && BlockedOn(s, t, u);
    assert BlockedWithin(s, u, ts);
    BlockedStep(s, a, w, t, u);
  }

  lemma SamePlaceOn(s: State, s': State, s'': State, t: Tid)
    requires SamePlace(s, s', t) && SamePlace(s', s'', t)
    ensures SamePlace(s, s'', t)
  {
  }

  /** Along every run, threads that are blocked on each other stay so, at the same entries. */
  lemma {:induction false} DeadlockForEver(actions: seq<Action>, more: seq<Action>, w: set<Obj>, ts: set<Tid>)
    requires Run(actions, w).Some? && Deadlocked(Run(actions, w).value, ts) && Run(actions + more, w).Some?
    ensures Deadlocked(Run(actions + more, w).value, ts)
    ensures forall t :: t in ts ==> SamePlace(Run(actions, w).value, Run(actions + more, w).value, t)
    decreases |more|
  {
    hide Deadlocked, Inv, Step, Enabled, SamePlace;
    var o := Run(actions, w).value;
    if more == [] {
      assert actions + more == actions;
      SamePlaceSelf(o, ts);
    } else {
      var rest, a := more[..|more| - 1], more[|more| - 1];
      assert (actions + more)[..|actions + more| - 1] == actions + rest;
      DeadlockForEver(actions, rest, w, ts);
      InvAlways(actions + rest, w);
      hide Run;
      var s := Run(actions + rest, w).value;
      DeadlockStep(s, a, w, ts);
      forall t | t in ts ensures SamePlace(o, Step(s, a, w), t) {
        SamePlaceOn(o, s, Step(s, a, w), t);
      }
    }
  }

  lemma SamePlaceSelf(s: State, ts: set<Tid>)
    requires Deadlocked(s, ts)
    ensures forall t :: t in ts ==> SamePlace(s, s, t)
  {
    forall t | t in ts ensures SamePlace(s, s, t) {
      assert BlockedWithin(s, t, ts);
    }
  }

  // ----- Runs in which constructors open only what they may -----

  /** What the constructors of each object may open: the objects a queue of theirs can hold. */
  type Opens = Graph<Obj>

  function EntryOf(f: Frame): Obj
    requires f.i < |f.queue|
  {
    f.queue[f.i]
  }

  /** A call from a constructor has a queue of objects that the constructor may open. */
  ghost predicate Permitted(s: State, a: Action, opens: Opens) {
    a.Call? && Stack(s, a.t) != [] ==>
      && Top(s, a.t).i < |Top(s, a.t).queue| && EntryOf(Top(s, a.t)) in opens
      && forall q :: q in a.queue ==> q in opens[EntryOf(Top(s, a.t))]
  }

  ghost predicate Follows(actions: seq<Action>, w: set<Obj>, opens: Opens) {
    if actions == [] then true
    else
      var rest, a := actions[..|actions| - 1], actions[|actions| - 1];
      Follows(rest, w, opens) && (Run(rest, w).Some? ==> Permitted(Run(rest, w).value, a, opens))
  }

  /** The call `inner` was made by the constructors of the entry that `outer` stands at. */
  ghost predicate OpenedBy(outer: Frame, inner: Frame, opens: Opens) {
    && outer.i < |outer.queue| && EntryOf(outer) in opens
    && forall q :: q in inner.queue ==> q in opens[EntryOf(outer)]
  }

  ghost predicate Chained(stack: seq<Frame>, opens: Opens) {
    forall m :: 0 <= m < |stack| - 1 ==> OpenedBy(stack[m], stack[m + 1], opens)
  }

  ghost predicate AllChained(s: State, opens: Opens) {
    forall t :: Chained(Stack(s, t), opens)
  }

  lemma ChainedChange(stack: seq<Frame>, f: Frame, opens: Opens)
    requires Chained(stack, opens) && stack != [] && f.queue == stack[|stack| - 1].queue
    ensures Chained(stack[|stack| - 1 := f], opens)
  {
  }

  lemma ChainedPush(s: State, t: Tid, queue: seq<Obj>, opens: Opens)
    requires Chained(Stack(s, t), opens) && Permitted(s, Call(t, queue), opens)
    ensures Chained(Stack(s, t) + [Frame(queue, 0, Locking)], opens)
  {
  }

  lemma ChainedStep(s: State, a: Action, w: set<Obj>, opens: Opens)
    requires AllChained(s, opens) && Enabled(s, a) && Permitted(s, a, opens)
    ensures AllChained(Step(s, a, w), opens)
  {
    StackStep(s, a, w);
    OthersKeepStacks(s, a, w);
    hide Step, Enabled, Chained, Permitted, Stack;
    var t, s' := Actor(s, a), Step(s, a, w);
    var stack := Stack(s, t);
    assert Chained(stack, opens);
    if a.Call? {
      ChainedPush(s, t, a.queue, opens);
    } else if a.Finish? {
      ChainedPop(stack, opens);
    } else if ChangesFrame(a) {
      ChainedChange(stack, FrameAfter(stack[|stack| - 1], a), opens);
    }
    assert Chained(Stack(s', t), opens);
    forall u ensures Chained(Stack(s', u), opens) {
      if u != t { assert Chained(Stack(s, u), opens); }
    }
  }

  lemma ChainedPop(stack: seq<Frame>, opens: Opens)
    requires Chained(stack, opens) && stack != []
    ensures Chained(stack[..|stack| - 1], opens)
  {
  }

  lemma {:induction false} ChainedAlways(actions: seq<Action>, w: set<Obj>, opens: Opens)
    requires Follows(actions, w, opens)
    ensures Run(actions, w).Some? ==> AllChained(Run(actions, w).value, opens)
  {
    if actions != [] {
      var rest, a := actions[..|actions| - 1], actions[|actions| - 1];
      ChainedAlways(rest, w, opens);
      hide AllChained, Step, Enabled, Permitted;
      if Run(actions, w).Some? {
        ChainedStep(Run(rest, w).value, a, w, opens);
      }
    }
  }

  // ----- A deadlock needs a cycle -----

  lemma {:induction false} VisitsFrame(stack: seq<Frame>, p: Obj) returns (k: nat)
    requires p in Visits(stack)
    ensures k < |stack| && Visiting(stack[k]) && EntryOf(stack[k]) == p
    decreases |stack|
  {
    var top := stack[|stack| - 1];
    if Visiting(top) && EntryOf(top) == p {
      k := |stack| - 1;
    } else {
      k := VisitsFrame(stack[..|stack| - 1], p);
    }
  }

  lemma {:induction false} FrameVisits(stack: seq<Frame>, k: nat)
    requires k < |stack| && Visiting(stack[k])
    ensures EntryOf(stack[k]) in Visits(stack)
    decreases |stack|
  {
    if k < |stack| - 1 {
      FrameVisits(stack[..|stack| - 1], k);
    }
  }

  lemma {:induction false} VisitsApart(stack: seq<Frame>, i: nat, j: nat)
    requires Distinct(Visits(stack)) && i < j < |stack| && Visiting(stack[i]) && Visiting(stack[j])
    ensures EntryOf(stack[i]) != EntryOf(stack[j])
    decreases |stack|
  {
    var rest, top := stack[..|stack| - 1], stack[|stack| - 1];
    if Visiting(top) { DistinctSplit(Visits(rest), EntryOf(top)); }
    else { assert Visits(rest) + [] == Visits(rest); }
    if j < |stack| - 1 {
      VisitsApart(rest, i, j);
    } else {
      FrameVisits(rest, i);
    }
  }

  /** The entries from frame `k` to the top. */
  ghost function Entries(stack: seq<Frame>, k: nat): (es: seq<Obj>)
    requires k <= |stack| && forall m :: k <= m < |stack| ==> stack[m].i < |stack[m].queue|
    ensures |es| == |stack| - k && forall m :: 0 <= m < |es| ==> es[m] == EntryOf(stack[k + m])
  {
    seq(|stack| - k, m requires 0 <= m < |stack| - k => EntryOf(stack[k + m]))
  }

  predicate Stands(s: State, t: Tid) {
    Stack(s, t) != [] && Top(s, t).i < |Top(s, t).queue|
  }

  function Stood(s: State, t: Tid): Obj {
    if Stands(s, t) then EntryOf(Top(s, t)) else 0
  }

  lemma ThreadFacts(s: State, w: set<Obj>, t: Tid)
    requires Inv(s, w)
    ensures WellNested(Stack(s, t)) && Distinct(Visits(Stack(s, t))) && OwnedBy(s, t, Visits(Stack(s, t)))
  {
    hide LockHeld, Once, Passed, FiniOrder, Finalized, WellNested, Distinct, OwnedBy, Visits;
  }

  lemma VisitorVisits(s: State, w: set<Obj>, t: Tid, p: Obj)
    requires Inv(s, w) && p in s.visitor && s.visitor[p] == t
    ensures p in Visits(Stack(s, t))
  {
    hide Inv;
    ThreadFacts(s, w, t);
  }

  /** Two calls that stand at different entries. */
  ghost predicate StandApart(f: Frame, g: Frame) {
    f.i < |f.queue| && g.i < |g.queue| && EntryOf(f) != EntryOf(g)
  }

  lemma EntriesDiffer(s: State, w: set<Obj>, t: Tid, u: Tid, m: nat)
    requires Inv(s, w) && BlockedOn(s, t, u) && m + 1 < |Stack(s, t)|
    ensures StandApart(Stack(s, t)[m], Stack(s, t)[m + 1])
  {
    hide Inv, Visits, Distinct;
    var stack := Stack(s, t);
    ThreadFacts(s, w, t);
    assert stack[m] in stack && stack[m].pc == Running;
    FrameVisits(stack, m);
    if m + 1 < |stack| - 1 {
      assert stack[m + 1] in stack && stack[m + 1].pc == Running;
      VisitsApart(stack, m, m + 1);
    }
  }

  /** From every object a blocked thread is constructing a path leads to the entry it is blocked at. */
  lemma VisitsLead(s: State, w: set<Obj>, opens: Opens, t: Tid, u: Tid, p: Obj)
    requires Inv(s, w) && AllChained(s, opens) && BlockedOn(s, t, u) && p in Visits(Stack(s, t))
    ensures Stands(s, t) && Leads(opens, p, Stood(s, t))
  {
    hide Inv, Visits, StandApart, Chained, IsPath;
    var stack := Stack(s, t);
    var k := VisitsFrame(stack, p);
    assert k < |stack| - 1;
    forall m | k <= m < |stack| - 1 ensures StandApart(stack[m], stack[m + 1]) {
      EntriesDiffer(s, w, t, u, m);
    }
    EntriesPath(stack, k, opens);
    assert Entries(stack, k)[0] == p;
  }

  lemma EntriesPath(stack: seq<Frame>, k: nat, opens: Opens)
    requires k < |stack| - 1 && Chained(stack, opens)
    requires forall m :: k <= m < |stack| - 1 ==> StandApart(stack[m], stack[m + 1])
    ensures (forall m :: k <= m < |stack| ==> stack[m].i < |stack[m].queue|) && IsPath(opens, Entries(stack, k))
  {
    forall m | k <= m < |stack| ensures stack[m].i < |stack[m].queue| {
      if m > k { assert StandApart(stack[m - 1], stack[m - 1 + 1]); } else { assert StandApart(stack[m], stack[m + 1]); }
    }
    var es := Entries(stack, k);
    forall i | 0 <= i < |es| - 1 ensures es[i] in opens && es[i + 1] in opens[es[i]] && es[i] != es[i + 1] {
      assert es[i] == EntryOf(stack[k + i]) && es[i + 1] == EntryOf(stack[k + i + 1]);
      assert StandApart(stack[k + i], stack[k + i + 1]) && OpenedBy(stack[k + i], stack[k + i + 1], opens);
      assert EntryOf(stack[k + i + 1]) in stack[k + i + 1].queue;
    }
  }

  /** The entries the threads stand at. */
  ghost function StoodAt(s: State, ts: set<Tid>): set<Obj> {
    set t | t in ts && Stands(s, t) :: Stood(s, t)
  }

  lemma StoodIn(s: State, ts: set<Tid>, t: Tid)
    requires t in ts && Stands(s, t)
    ensures Stood(s, t) in StoodAt(s, ts)
  {
    hide Stands, Stood;
  }

  lemma StoodFrom(s: State, ts: set<Tid>, x: Obj) returns (t: Tid)
    requires x in StoodAt(s, ts)
    ensures t in ts && Stands(s, t) && Stood(s, t) == x
  {
    hide Stands, Stood;
    t :| t in ts && Stands(s, t) && Stood(s, t) == x;
  }

  lemma BlockedTwo(s: State, ts: set<Tid>, t: Tid) returns (u: Tid, v: Tid)
    requires Deadlocked(s, ts) && t in ts
    ensures u in ts && BlockedOn(s, t, u) && v in ts && BlockedOn(s, u, v)
  {
    hide BlockedOn;
    assert BlockedWithin(s, t, ts);
    u :| u in ts && BlockedOn(s, t, u);
    assert BlockedWithin(s, u, ts);
    v :| v in ts && BlockedOn(s, u, v);
  }

  lemma BlockedFacts(s: State, t: Tid, u: Tid)
    requires BlockedOn(s, t, u)
    ensures Stands(s, t) && Stood(s, t) in s.visitor && s.visitor[Stood(s, t)] == u
  {
  }

  lemma StoodLeads(s: State, w: set<Obj>, opens: Opens, ts: set<Tid>, t: Tid)
    requires Inv(s, w) && AllChained(s, opens) && Deadlocked(s, ts) && t in ts
    ensures Stands(s, t) && LeadsInto(opens, Stood(s, t), StoodAt(s, ts))
  {
    hide Inv, AllChained, Visits, Leads, Deadlocked, BlockedOn, Stands, Stood, StoodAt;
    var u, v := BlockedTwo(s, ts, t);
    BlockedFacts(s, t, u);
    VisitorVisits(s, w, u, Stood(s, t));
    VisitsLead(s, w, opens, u, v, Stood(s, t));
    StoodIn(s, ts, u);
  }

  lemma DeadlockHasCycle(actions: seq<Action>, w: set<Obj>, opens: Opens, ts: set<Tid>)
    requires Run(actions, w).Some? && Follows(actions, w, opens) && Deadlocked(Run(actions, w).value, ts)
    ensures HasCycle(opens)
  {
    hide Inv, AllChained, Run, Follows, LeadsInto, Leads, HasCycle, Stands, Stood;
    InvAlways(actions, w);
    ChainedAlways(actions, w, opens);
    CycleBehind(Run(actions, w).value, w, opens, ts);
  }

  lemma SomeThread(s: State, ts: set<Tid>) returns (t: Tid)
    requires Deadlocked(s, ts)
    ensures t in ts
  {
    t := Pick(ts);
  }

  lemma CycleBehind(s: State, w: set<Obj>, opens: Opens, ts: set<Tid>)
    requires Inv(s, w) && AllChained(s, opens) && Deadlocked(s, ts)
    ensures HasCycle(opens)
  {
    hide Inv, AllChained, LeadsInto, Leads, HasCycle, Stands, Stood, StoodAt;
    hide Deadlocked;
    var t := SomeThread(s, ts);
    StoodLeads(s, w, opens, ts, t);
    StoodIn(s, ts, t);
    forall x | x in StoodAt(s, ts) ensures LeadsInto(opens, x, StoodAt(s, ts)) {
      var u := StoodFrom(s, ts, x);
      StoodLeads(s, w, opens, ts, u);
    }
    var x := LoopInside(opens, StoodAt(s, ts));
    LoopHasCycle(opens, x);
  }

  // ----- A cycle makes a deadlock possible -----

  /** A permitted run that ends in `s`. */
  ghost predicate Arrives(actions: seq<Action>, w: set<Obj>, opens: Opens, s: State) {
    Run(actions, w) == Some(s) && Follows(actions, w, opens)
  }

  lemma ArrivesOn(actions: seq<Action>, w: set<Obj>, opens: Opens, s: State, a: Action, t: State)
    requires Arrives(actions, w, opens, s) && Enabled(s, a) && Permitted(s, a, opens) && Step(s, a, w) == t
    ensures Arrives(actions + [a], w, opens, t)
  {
    hide Step, Enabled, Permitted;
    assert (actions + [a])[..|actions|] == actions;
  }

  /** `s` with the lock and `t`'s calls as given. */
  function Standing(s: State, t: Tid, stack: seq<Frame>, lock: Option<Tid>): State {
    s.(stacks := s.stacks[t := stack], lock := lock)
  }

  lemma StackOf(s: State, t: Tid, stack: seq<Frame>, lock: Option<Tid>)
    ensures Stack(Standing(s, t, stack, lock), t) == stack
    ensures forall other :: other != t ==> Stack(Standing(s, t, stack, lock), other) == Stack(s, other)
  {
  }

  lemma CallFrom(s: State, t: Tid, stack: seq<Frame>, q: Obj, w: set<Obj>)
    requires s.exit == NoExit && (stack != [] ==> stack[|stack| - 1].pc == Running)
    ensures var s1 := Standing(s, t, stack, None);
            Enabled(s1, Call(t, [q])) && Step(s1, Call(t, [q]), w) == Standing(s, t, stack + [Frame([q], 0, Locking)], None)
  {
    StackOf(s, t, stack, None);
  }

  lemma FirstCall(s: State, t: Tid, p: Obj, w: set<Obj>)
    requires s.exit == NoExit && Stack(s, t) == [] && s.lock == None
    ensures Enabled(s, Call(t, [p])) && Step(s, Call(t, [p]), w) == Standing(s, t, [Frame([p], 0, Locking)], None)
  {
    assert [] + [Frame([p], 0, Locking)] == [Frame([p], 0, Locking)];
  }

  lemma LockFrom(s: State, t: Tid, stack: seq<Frame>, q: Obj, w: set<Obj>)
    requires s.exit == NoExit
    ensures var s1 := Standing(s, t, stack + [Frame([q], 0, Locking)], None);
            && Enabled(s1, Lock(t))
            && Step(s1, Lock(t), w) == Standing(s, t, stack + [Frame([q], 0, Checking)], Some(t))
  {
    var before, after := stack + [Frame([q], 0, Locking)], stack + [Frame([q], 0, Checking)];
    StackOf(s, t, before, None);
    assert before[|before| - 1 := Frame([q], 0, Checking)] == after;
  }

  lemma WaitFrom(s: State, t: Tid, stack: seq<Frame>, q: Obj, w: set<Obj>)
    requires s.exit == NoExit && q in s.visitor && s.visitor[q] != t
    ensures var s1 := Standing(s, t, stack + [Frame([q], 0, Checking)], Some(t));
            && Enabled(s1, Wait(t))
            && Step(s1, Wait(t), w) == Standing(s, t, stack + [Frame([q], 0, Waiting)], None)
  {
    var before, after := stack + [Frame([q], 0, Checking)], stack + [Frame([q], 0, Waiting)];
    StackOf(s, t, before, Some(t));
    assert before[|before| - 1 := Frame([q], 0, Waiting)] == after;
  }

  /** `s` after `t` has started the constructors of `p`. */
  function Visited(s: State, t: Tid, p: Obj, w: set<Obj>): State {
    s.(visitor := s.visitor[p := t], starts := s.starts + [p], fini := if p in w then [p] + s.fini else s.fini)
  }

  lemma BeginFrom(s: State, t: Tid, p: Obj, w: set<Obj>)
    requires s.exit == NoExit && !s.shuttingDown && p !in s.visitor && p !in s.constructed
    ensures var s1 := Standing(s, t, [Frame([p], 0, Checking)], Some(t));
            && Enabled(s1, Begin(t))
            && Step(s1, Begin(t), w) == Standing(Visited(s, t, p, w), t, [Frame([p], 0, Running)], None)
  {
    var before, after := [Frame([p], 0, Checking)], [Frame([p], 0, Running)];
    StackOf(s, t, before, Some(t));
    assert before[0 := Frame([p], 0, Running)] == after;
    assert s.stacks[t := before][t := after] == s.stacks[t := after];
  }

  lemma PermittedCall(s: State, t: Tid, p: Obj, q: Obj, opens: Opens)
    requires Stack(s, t) == [Frame([p], 0, Running)] && p in opens && q in opens[p]
    ensures Permitted(s, Call(t, [q]), opens)
  {
  }

  /** A thread starts the constructors of `p`, and they open `q`. */
  lemma OpensInside(actions: seq<Action>, w: set<Obj>, opens: Opens, s: State, t: Tid, p: Obj, q: Obj) returns (more: seq<Action>)
    requires Arrives(actions, w, opens, s) && Stack(s, t) == [] && s.lock == None
    requires s.exit == NoExit && !s.shuttingDown && p !in s.visitor && p !in s.constructed
    requires p in opens && q in opens[p]
    ensures Arrives(more, w, opens, Standing(Visited(s, t, p, w), t, [Frame([p], 0, Running), Frame([q], 0, Locking)], None))
  {
    hide Arrives, Step, Enabled, Standing;
    FirstCall(s, t, p, w);
    assert [] + [Frame([p], 0, Locking)] == [Frame([p], 0, Locking)] && [] + [Frame([p], 0, Checking)] == [Frame([p], 0, Checking)];
    ArrivesOn(actions, w, opens, s, Call(t, [p]), Standing(s, t, [Frame([p], 0, Locking)], None));
    more := actions + [Call(t, [p])];
    LockFrom(s, t, [], p, w);
    ArrivesOn(more, w, opens, Standing(s, t, [Frame([p], 0, Locking)], None), Lock(t), Standing(s, t, [Frame([p], 0, Checking)], Some(t)));
    more := more + [Lock(t)];
    BeginFrom(s, t, p, w);
    var v := Visited(s, t, p, w);
    ArrivesOn(more, w, opens, Standing(s, t, [Frame([p], 0, Checking)], Some(t)), Begin(t), Standing(v, t, [Frame([p], 0, Running)], None));
    more := more + [Begin(t)];
    CallFrom(v, t, [Frame([p], 0, Running)], q, w);
    StackOf(v, t, [Frame([p], 0, Running)], None);
    PermittedCall(Standing(v, t, [Frame([p], 0, Running)], None), t, p, q, opens);
    var stack := [Frame([p], 0, Running), Frame([q], 0, Locking)];
    assert [Frame([p], 0, Running)] + [Frame([q], 0, Locking)] == stack;
    ArrivesOn(more, w, opens, Standing(v, t, [Frame([p], 0, Running)], None), Call(t, [q]), Standing(v, t, stack, None));
    more := more + [Call(t, [q])];
  }

  /** A thread in the inner call takes the lock, sees its entry visited, and waits. */
  lemma WaitsAt(actions: seq<Action>, w: set<Obj>, opens: Opens, s: State, t: Tid, stack: seq<Frame>, q: Obj) returns (more: seq<Action>)
    requires Arrives(actions, w, opens, Standing(s, t, stack + [Frame([q], 0, Locking)], None))
    requires s.exit == NoExit && q in s.visitor && s.visitor[q] != t
    ensures Arrives(more, w, opens, Standing(s, t, stack + [Frame([q], 0, Waiting)], None))
  {
    hide Arrives, Step, Enabled, Standing;
    LockFrom(s, t, stack, q, w);
    ArrivesOn(actions, w, opens, Standing(s, t, stack + [Frame([q], 0, Locking)], None), Lock(t), Standing(s, t, stack + [Frame([q], 0, Checking)], Some(t)));
    WaitFrom(s, t, stack, q, w);
    more := actions + [Lock(t)];
    ArrivesOn(more, w, opens, Standing(s, t, stack + [Frame([q], 0, Checking)], Some(t)), Wait(t), Standing(s, t, stack + [Frame([q], 0, Waiting)], None));
    more := more + [Wait(t)];
  }

  lemma StandingSelf(s: State, t: Tid, stack: seq<Frame>)
    requires t in s.stacks && s.stacks[t] == stack && s.lock == None
    ensures Standing(s, t, stack, None) == s
  {
    assert s.stacks[t := stack] == s.stacks;
  }

  /** Thread `i` constructs `c[i]`, whose constructors have opened the next object of the cycle. */
  function Round(c: seq<Obj>, i: nat, pc: Pc): seq<Frame>
    requires i < |c|
  {
    [Frame([c[i]], 0, Running), Frame([Following(c, i)], 0, pc)]
  }

  /** The first `k` threads have opened, and of those the first `n` wait. */
  ghost predicate Around(s: State, c: seq<Obj>, k: nat, n: nat) {
    && n <= k <= |c| && s.lock == None && s.exit == NoExit && !s.shuttingDown && s.constructed == {}
    && (forall i :: 0 <= i < k ==> i in s.stacks && s.stacks[i] == Round(c, i, if i < n then Waiting else Locking))
    && (forall i :: k <= i < |c| ==> Stack(s, i) == [])
    && (forall i :: 0 <= i < k ==> c[i] in s.visitor && s.visitor[c[i]] == i)
    && (forall i :: k <= i < |c| ==> c[i] !in s.visitor)
  }

  lemma AroundOpens(s: State, c: seq<Obj>, k: nat)
    requires Around(s, c, k, 0) && k < |c| && Distinct(c)
    ensures Around(Standing(Visited(s, k, c[k], {}), k, Round(c, k, Locking), None), c, k + 1, 0)
  {
    hide Round;
    var s' := Standing(Visited(s, k, c[k], {}), k, Round(c, k, Locking), None);
    StackOf(Visited(s, k, c[k], {}), k, Round(c, k, Locking), None);
    forall i | k + 1 <= i < |c| ensures Stack(s', i) == [] {
      assert Stack(s, i) == [];
    }
  }

  lemma AroundFree(s: State, c: seq<Obj>, k: nat)
    requires Around(s, c, k, 0) && k < |c|
    ensures Stack(s, k) == [] && s.lock == None && s.exit == NoExit && !s.shuttingDown
    ensures c[k] !in s.visitor && c[k] !in s.constructed
  {
  }

  lemma CycleEdge(c: seq<Obj>, opens: Opens, i: nat)
    requires IsCycle(opens, c) && i < |c|
    ensures c[i] in opens && Following(c, i) in opens[c[i]]
  {
  }

  lemma NoneAround(c: seq<Obj>, opens: Opens)
    ensures Arrives([], {}, opens, INIT) && Around(INIT, c, 0, 0)
  {
  }

  lemma {:induction false} OpenRound(c: seq<Obj>, opens: Opens, k: nat) returns (actions: seq<Action>, s: State)
    requires IsCycle(opens, c) && k <= |c|
    ensures Arrives(actions, {}, opens, s) && Around(s, c, k, 0)
  {
    assert Distinct(c);
    hide Arrives, Standing, Around, IsCycle, Distinct;
    if k == 0 {
      NoneAround(c, opens);
      actions, s := [], INIT;
    } else {
      var i := k - 1;
      actions, s := OpenRound(c, opens, i);
      AroundOpens(s, c, i);
      AroundFree(s, c, i);
      CycleEdge(c, opens, i);
      actions := OpensInside(actions, {}, opens, s, i, c[i], Following(c, i));
      s := Standing(Visited(s, i, c[i], {}), i, Round(c, i, Locking), None);
    }
  }

  lemma AroundWaits(s: State, c: seq<Obj>, n: nat)
    requires Around(s, c, |c|, n) && n < |c|
    ensures Around(Standing(s, n, Round(c, n, Waiting), None), c, |c|, n + 1)
  {
    hide Round;
  }

  lemma NextVisited(s: State, c: seq<Obj>, n: nat)
    requires Around(s, c, |c|, n) && n < |c| && |c| >= 2
    ensures Following(c, n) in s.visitor && s.visitor[Following(c, n)] != n
  {
    hide Round;
    assert c[0] in s.visitor && s.visitor[c[0]] == 0;
  }

  lemma {:induction false} WaitRound(c: seq<Obj>, opens: Opens, n: nat) returns (actions: seq<Action>, s: State)
    requires IsCycle(opens, c) && n <= |c|
    ensures Arrives(actions, {}, opens, s) && Around(s, c, |c|, n)
  {
    hide Arrives, Standing;
    if n == 0 {
      actions, s := OpenRound(c, opens, |c|);
    } else {
      var i := n - 1;
      actions, s := WaitRound(c, opens, i);
      AroundWaits(s, c, i);
      NextVisited(s, c, i);
      var outer := [Frame([c[i]], 0, Running)];
      assert outer + [Frame([Following(c, i)], 0, Locking)] == Round(c, i, Locking);
      assert outer + [Frame([Following(c, i)], 0, Waiting)] == Round(c, i, Waiting);
      StandingSelf(s, i, Round(c, i, Locking));
      actions := WaitsAt(actions, {}, opens, s, i, outer, Following(c, i));
      s := Standing(s, i, Round(c, i, Waiting), None);
    }
  }

  lemma RoundBlocked(s: State, c: seq<Obj>, i: nat)
    requires Around(s, c, |c|, |c|) && i < |c| && |c| >= 2
    ensures BlockedOn(s, i, if i + 1 == |c| then 0 else i + 1)
  {
    assert s.stacks[i] == Round(c, i, Waiting);
    assert c[0] in s.visitor && s.visitor[c[0]] == 0;
  }

  function Threads(n: nat): (ts: set<Tid>)
    ensures forall i: Tid :: i in ts <==> 0 <= i < n
  {
    if n == 0 then {} else Threads(n - 1) + {n - 1}
  }

  /** Around every cycle of what constructors may open, a permitted run deadlocks as many threads. */
  lemma CycleDeadlocks(c: seq<Obj>, opens: Opens) returns (actions: seq<Action>, ts: set<Tid>)
    requires IsCycle(opens, c)
    ensures Run(actions, {}).Some? && Follows(actions, {}, opens) && Deadlocked(Run(actions, {}).value, ts)
  {
    hide Run, Follows, Around, Deadlocked;
    var s;
    actions, s := WaitRound(c, opens, |c|);
    RoundDeadlocked(s, c);
    ts := Threads(|c|);
  }

  lemma RoundDeadlocked(s: State, c: seq<Obj>)
    requires Around(s, c, |c|, |c|) && |c| >= 2
    ensures Deadlocked(s, Threads(|c|))
  {
    hide BlockedOn, Around, Threads, BlockedWithin;
    var ts := Threads(|c|);
    assert 0 in ts;
    forall t | t in ts ensures BlockedWithin(s, t, ts) {
      RoundBlocked(s, c, t);
      WithinBy(s, t, if t + 1 == |c| then 0 else t + 1, ts);
    }
  }

  lemma WithinBy(s: State, t: Tid, u: Tid, ts: set<Tid>)
    requires u in ts && BlockedOn(s, t, u)
    ensures BlockedWithin(s, t, ts)
  {
    hide BlockedOn;
  }

  // ----- Exactly when a deadlock can arise -----

  /** No run whose constructors open only what they may reaches a deadlock. */
  ghost predicate DeadlockFree(opens: Opens) {
    forall actions, w, ts :: Run(actions, w).Some? && Follows(actions, w, opens) ==> !Deadlocked(Run(actions, w).value, ts)
  }

  /** That is so if and only if there is no cycle of two or more objects whose constructors may open the next. */
  lemma DeadlockFreeExactly(opens: Opens)
    ensures DeadlockFree(opens) <==> !HasCycle(opens)
  {
    hide Run, Follows, Deadlocked, IsCycle;
    if HasCycle(opens) {
      var c :| IsCycle(opens, c);
      var actions, ts := CycleDeadlocks(c, opens);
    } else {
      forall actions, w, ts | Run(actions, w).Some? && Follows(actions, w, opens) ensures !Deadlocked(Run(actions, w).value, ts) {
        if Deadlocked(Run(actions, w).value, ts) { DeadlockHasCycle(actions, w, opens, ts); }
      }
    }
  }

  /** Two objects whose constructors open each other. */
  lemma TwoThreadsDeadlock() returns (actions: seq<Action>, ts: set<Tid>)
    ensures Run(actions, {}).Some? && Deadlocked(Run(actions, {}).value, ts)
  {
    var opens: Opens := map[1 := [2], 2 := [1]];
    assert IsCycle(opens, [1, 2]);
    hide Run, Deadlocked;
    actions, ts := CycleDeadlocks([1, 2], opens);
  }
}
