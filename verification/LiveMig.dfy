/** Live migration as two step machines joined by two FIFO streams. The guest runs and writes memory
    until it is paused, and either side may fail at any step. */
module LiveMig {
  import opened Sequences
  import opened Bytes
  import Bits
  import MigWire

  type Contents = seq<byte>

  datatype Msg = Hello | Ready | Page(gpa: nat, data: Contents) | VcpuState(regs: Contents) | Done | Running

  /** Where `run_migration` is; `last` tells the stop-and-copy pass from the iterative ones. */
  datatype Source =
    | Connect | AwaitReady | Track | ReadLog(last: bool) | Send(last: bool) | Pause
    | SendVcpu | MoveMaps | SendDone | AwaitRunning | Switch | Delete | Complete | Broken

  /** Where `receive_migration` is. */
  datatype Destination = AwaitHello | Receive | Report | Over | Lost

  /** The source's machine: pages written since the log was last read are dirty. */
  datatype Guest = Guest(memory: map<nat, Contents>, regs: Contents, dirty: set<nat>, running: bool)

  datatype LogEntry = LogEntry(gpa: nat, data: Contents)

  /** The source's process: the log it is sending, how much of it is sent, and the passes made. */
  datatype Copier = Copier(phase: Source, pending: seq<LogEntry>, sent: nat, pass: nat)

  /** The destination: it has taken the first `taken` messages. */
  datatype Receiver = Receiver(phase: Destination, taken: nat, pages: map<nat, Contents>, vcpu: Option<Contents>, started: bool)

  /** `wire` is everything the source has sent; `back` everything the destination has, of which the
      source has taken the first `backTaken`. */
  datatype State = State(guest: Guest, copier: Copier, receiver: Receiver,
                         wire: seq<Msg>, back: seq<Msg>, backTaken: nat, deleted: bool)

  datatype Step =
    | GuestWrite(gpa: nat, data: Contents) | GuestCompute(regs: Contents)
    | Advance | TakeLog(order: seq<nat>) | EndPass(threshold: nat, timeout: bool) | DeleteSource(ok: bool) | BreakSource
    | Take | ReportRunning | LoseDestination

  ghost predicate Initial(s: State) {
    && s.guest.running && s.copier == Copier(Connect, [], 0, 0) && s.receiver == Receiver(AwaitHello, 0, map[], None, false)
    && s.wire == [] && s.back == [] && s.backTaken == 0 && !s.deleted
  }

  function Snapshot(memory: map<nat, Contents>, order: seq<nat>): seq<LogEntry>
    requires forall i :: 0 <= i < |order| ==> order[i] in memory
  {
    seq(|order|, i requires 0 <= i < |order| => LogEntry(order[i], memory[order[i]]))
  }

  function Goto(s: State, phase: Source): State {
    s.(copier := s.copier.(phase := phase))
  }

  function Sent(s: State, phase: Source, m: Msg): State {
    Goto(s, phase).(wire := s.wire + [m])
  }

  /** `expect`: any other message is an error. */
  function Expected(s: State, m: Msg, phase: Source): State
    requires s.backTaken < |s.back|
  {
    Goto(s, if s.back[s.backTaken] == m then phase else Broken).(backTaken := s.backTaken + 1)
  }

  function SentPage(s: State): State
    requires s.copier.sent < |s.copier.pending|
  {
    var p := s.copier.pending[s.copier.sent];
    s.(wire := s.wire + [Page(p.gpa, p.data)], copier := s.copier.(sent := s.copier.sent + 1))
  }

  /** The steps of the source that need no choice. */
  ghost predicate Advances(s: State, t: State) {
    match s.copier.phase
    case Connect => t == Sent(s, AwaitReady, Hello)
    case AwaitReady => s.backTaken < |s.back| && t == Expected(s, Ready, Track)
    case Track => t == Goto(s, ReadLog(false)).(guest := s.guest.(dirty := s.guest.memory.Keys))
    case Send(last) => s.copier.sent < |s.copier.pending| && t == SentPage(s)
    case Pause => t == Goto(s, ReadLog(true)).(guest := s.guest.(running := false))
    case SendVcpu => t == Sent(s, MoveMaps, VcpuState(s.guest.regs))
    case MoveMaps => t == Goto(s, SendDone)
    case SendDone => t == Sent(s, AwaitRunning, Done)
    case AwaitRunning => s.backTaken < |s.back| && t == Expected(s, Running, Switch)
    case Switch => t == Goto(s, Delete)
    case _ => false
  }

  /** The destination's reaction to a message; the flag tells whether it answers. */
  function Reaction(r: Receiver, m: Msg): Receiver {
    var next := r.(taken := r.taken + 1);
    match r.phase
    case AwaitHello => next.(phase := if m == Hello then Receive else Lost)
    case Receive => (
      match m
      case Page(gpa, data) => next.(pages := r.pages[gpa := data])
      case VcpuState(regs) => next.(vcpu := Some(regs))
      case Done => next.(phase := Report, started := true)
      case _ => next)
    case _ => r
  }

  ghost predicate Takes(s: State, t: State) {
    && s.receiver.taken < |s.wire| && (s.receiver.phase.AwaitHello? || s.receiver.phase.Receive?)
    && var m := s.wire[s.receiver.taken];
       t == s.(receiver := Reaction(s.receiver, m),
               back := if s.receiver.phase.AwaitHello? && m == Hello then s.back + [Ready] else s.back)
  }

  function TookLog(s: State, order: seq<nat>): State
    requires forall i :: 0 <= i < |order| ==> order[i] in s.guest.memory
  {
    s.(guest := s.guest.(dirty := {}),
       copier := Copier(Send(s.copier.phase == ReadLog(true)), Snapshot(s.guest.memory, order), 0, s.copier.pass))
  }

  /** After a pass: the count of pages left is compared with the threshold. */
  function EndedPass(c: Copier, threshold: nat, timeout: bool): Copier {
    if c.phase == Send(true) then c.(phase := SendVcpu)
    else c.(pass := c.pass + 1, phase := if |c.pending| - c.sent <= threshold || timeout then Pause else ReadLog(false))
  }

  ghost predicate Next(s: State, step: Step, t: State) {
    match step
    case GuestWrite(gpa, data) =>
      && s.guest.running && gpa in s.guest.memory
      && t == s.(guest := s.guest.(memory := s.guest.memory[gpa := data], dirty := s.guest.dirty + {gpa}))
    case GuestCompute(regs) => s.guest.running && t == s.(guest := s.guest.(regs := regs))
    case Advance => Advances(s, t)
    case TakeLog(order) =>
      && s.copier.phase.ReadLog? && Members(order) == s.guest.dirty
      && (forall i :: 0 <= i < |order| ==> order[i] in s.guest.memory)
      && t == TookLog(s, order)
    case EndPass(threshold, timeout) =>
      && s.copier.phase.Send? && s.copier.sent == |s.copier.pending|
      && t == s.(copier := EndedPass(s.copier, threshold, timeout))
    case DeleteSource(ok) => s.copier.phase == Delete && t == Goto(s, Complete).(deleted := ok)
    case BreakSource => s.copier.phase != Complete && t == Goto(s, Broken)
    case Take => Takes(s, t)
    case ReportRunning =>
      s.receiver.phase == Report && t == s.(receiver := s.receiver.(phase := Over), back := s.back + [Running])
    case LoseDestination => t == s.(receiver := s.receiver.(phase := Lost))
  }

  ghost predicate Path(states: seq<State>, steps: seq<Step>) {
    |states| == |steps| + 1 && forall i :: 0 <= i < |steps| ==> Next(states[i], steps[i], states[i + 1])
  }

  ghost predicate Run(states: seq<State>, steps: seq<Step>) {
    Path(states, steps) && Initial(states[0])
  }

  // ----- What the messages carry -----

  /** The page map that messages build, in the order they were sent. */
  function PagesOf(wire: seq<Msg>): map<nat, Contents> {
    if wire == [] then map[]
    else
      var before, last := PagesOf(wire[..|wire| - 1]), wire[|wire| - 1];
      if last.Page? then before[last.gpa := last.data] else before
  }

  function VcpuOf(wire: seq<Msg>): Option<Contents> {
    if wire == [] then None
    else if wire[|wire| - 1].VcpuState? then Some(wire[|wire| - 1].regs)
    else VcpuOf(wire[..|wire| - 1])
  }

  /** Pages still to be sent, put on top of `pages`. */
  function Flush(pages: map<nat, Contents>, pending: seq<LogEntry>): map<nat, Contents>
    decreases |pending|
  {
    if pending == [] then pages else Flush(pages[pending[0].gpa := pending[0].data], pending[1..])
  }

  lemma SentOne(wire: seq<Msg>, m: Msg)
    ensures PagesOf(wire + [m]) == if m.Page? then PagesOf(wire)[m.gpa := m.data] else PagesOf(wire)
    ensures VcpuOf(wire + [m]) == if m.VcpuState? then Some(m.regs) else VcpuOf(wire)
  {
  }

  /** A snapshot on top of any pages: its addresses have the memory's contents, others what they had. */
  lemma {:induction false} FlushSnapshot(pages: map<nat, Contents>, memory: map<nat, Contents>, order: seq<nat>)
    requires forall i :: 0 <= i < |order| ==> order[i] in memory
    ensures Flush(pages, Snapshot(memory, order)).Keys == pages.Keys + Members(order)
    ensures forall gpa :: gpa in pages || gpa in order ==>
      Flush(pages, Snapshot(memory, order))[gpa] == if gpa in order then memory[gpa] else pages[gpa]
    decreases |order|
  {
    if order != [] {
      FlushSnapshot(pages[order[0] := memory[order[0]]], memory, order[1..]);
      assert Snapshot(memory, order)[1..] == Snapshot(memory, order[1..]);
      assert order == [order[0]] + order[1..];
    }
  }

  // ----- Invariants -----

  /** The log is being tracked and the migration has not been given up. */
  predicate Tracking(source: Source) {
    !(source.Connect? || source.AwaitReady? || source.Track? || source.Broken?)
  }

  /** The source has taken its last log. */
  predicate Final(source: Source) {
    || source == Send(true) || source.SendVcpu? || source.MoveMaps? || source.SendDone?
    || source.AwaitRunning? || source.Switch? || source.Delete? || source.Complete?
  }

  predicate Stopped(source: Source) {
    source == ReadLog(true) || Final(source)
  }

  /** Every clean page is, or is about to be, in the messages as it is in memory. */
  ghost predicate Synced(g: Guest, c: Copier, wire: seq<Msg>) {
    && c.sent <= |c.pending| && g.dirty <= g.memory.Keys
    && var copy := Flush(PagesOf(wire), c.pending[c.sent..]);
       && copy.Keys <= g.memory.Keys
       && forall gpa :: gpa in g.memory && gpa !in g.dirty ==> gpa in copy && copy[gpa] == g.memory[gpa]
  }

  /** The copy in the messages, phase by phase of the source. */
  ghost predicate Copying(g: Guest, c: Copier, wire: seq<Msg>) {
    && (Tracking(c.phase) ==> Synced(g, c, wire) && (!c.phase.Send? ==> c.sent == |c.pending|))
    && (!Tracking(c.phase) && !c.phase.Broken? ==> c.pending == [] && c.sent == 0 && PagesOf(wire) == map[])
    && (Stopped(c.phase) ==> !g.running) && (!g.running ==> Stopped(c.phase) || c.phase.Broken?)
    && (Final(c.phase) ==> g.dirty == {})
  }

  predicate DoneSent(source: Source) {
    source.AwaitRunning? || source.Switch? || source.Delete? || source.Complete?
  }

  /** The end of the messages: `Done` is the last one, and by then they carry everything. */
  ghost predicate Sending(g: Guest, c: Copier, wire: seq<Msg>) {
    && (if wire == [] then c.phase.Connect? || c.phase.Broken? else wire[0] == Hello && !c.phase.Connect?)
    && (c.phase.MoveMaps? || c.phase.SendDone? ==> VcpuOf(wire) == Some(g.regs))
    && (DoneSent(c.phase) ==> Done in wire)
    && (Done in wire ==> (DoneSent(c.phase) || c.phase.Broken?) && Carried(g, wire))
  }

  /** `wire` ends with `Done` after all of the stopped guest. */
  ghost predicate Carried(g: Guest, wire: seq<Msg>) {
    && wire != [] && Done !in wire[..|wire| - 1]
    && !g.running && PagesOf(wire) == g.memory && VcpuOf(wire) == Some(g.regs)
  }

  predicate Answered(source: Source) {
    source.Switch? || source.Delete? || source.Complete?
  }

  /** Answers come in order, and the second one only from a started destination. */
  ghost predicate Answering(phase: Source, r: Receiver, back: seq<Msg>, backTaken: nat, deleted: bool) {
    && back <= [Ready, Running] && backTaken <= |back|
    && (r.phase.AwaitHello? ==> back == [])
    && (r.phase.Receive? || r.phase.Report? ==> |back| == 1)
    && (|back| == 2 || r.phase.Report? ==> r.started)
    && (phase.Connect? || phase.AwaitReady? ==> backTaken == 0)
    && (phase.Track? || Tracking(phase) ==> backTaken == if Answered(phase) then 2 else 1)
    && (deleted ==> backTaken == 2)
  }

  /** What the destination has built is what the messages it has taken carry. */
  ghost predicate Receiving(r: Receiver, wire: seq<Msg>) {
    && r.taken <= |wire|
    && r.pages == PagesOf(wire[..r.taken]) && r.vcpu == VcpuOf(wire[..r.taken])
    && (r.started <==> Done in wire[..r.taken])
    && (r.phase.AwaitHello? ==> r.taken == 0)
    && (r.phase.Receive? ==> !r.started) && (r.phase.Report? || r.phase.Over? ==> r.started)
  }

  /** There is one iterative pass: a pass leaves nothing unsent, so the first meets any threshold. */
  ghost predicate Passing(c: Copier) {
    && (c.phase.Pause? || Stopped(c.phase) ==> c.pass == 1)
    && (!c.phase.Pause? && !Stopped(c.phase) && !c.phase.Broken? ==> c.pass == 0)
    && c.pass <= 1
  }

  ghost predicate Inv(s: State) {
    && Copying(s.guest, s.copier, s.wire) && Sending(s.guest, s.copier, s.wire) && Receiving(s.receiver, s.wire)
    && Answering(s.copier.phase, s.receiver, s.back, s.backTaken, s.deleted) && Passing(s.copier)
  }

  // ----- One part at a time -----

  lemma ReceivingStep(r: Receiver, wire: seq<Msg>)
    requires Receiving(r, wire) && (wire != [] ==> wire[0] == Hello) && r.taken < |wire|
    requires r.phase.AwaitHello? || r.phase.Receive?
    ensures Receiving(Reaction(r, wire[r.taken]), wire)
  {
    SentOne(wire[..r.taken], wire[r.taken]);
    assert wire[..r.taken + 1] == wire[..r.taken] + [wire[r.taken]];
    hide PagesOf, VcpuOf;
  }

  lemma ReceivingMore(r: Receiver, wire: seq<Msg>, m: Msg)
    requires Receiving(r, wire)
    ensures Receiving(r, wire + [m])
  {
    assert (wire + [m])[..r.taken] == wire[..r.taken];
    hide PagesOf, VcpuOf;
  }

  lemma SyncedPage(g: Guest, c: Copier, wire: seq<Msg>)
    requires Synced(g, c, wire) && c.sent < |c.pending|
    ensures var p := c.pending[c.sent];
            Synced(g, c.(sent := c.sent + 1), wire + [Page(p.gpa, p.data)])
  {
  }

  lemma SyncedLog(g: Guest, c: Copier, wire: seq<Msg>, order: seq<nat>, phase: Source)
    requires Synced(g, c, wire) && c.sent == |c.pending| && Members(order) == g.dirty
    requires forall i :: 0 <= i < |order| ==> order[i] in g.memory
    ensures Synced(g.(dirty := {}), Copier(phase, Snapshot(g.memory, order), 0, c.pass), wire)
  {
    assert c.pending[c.sent..] == [];
    var log := Snapshot(g.memory, order);
    assert log[0..] == log;
    FlushSnapshot(PagesOf(wire), g.memory, order);
    assert Flush(PagesOf(wire), []) == PagesOf(wire);
    hide PagesOf, Snapshot, Flush;
  }

  lemma SyncedOther(g: Guest, c: Copier, wire: seq<Msg>, m: Msg)
    requires Synced(g, c, wire) && !m.Page?
    ensures Synced(g, c, wire + [m])
  {
  }

  /** A clean, fully sent copy is the memory. */
  lemma SyncedAll(g: Guest, c: Copier, wire: seq<Msg>)
    requires Synced(g, c, wire) && c.sent == |c.pending| && g.dirty == {}
    ensures PagesOf(wire) == g.memory
  {
  }

  // ----- Every step keeps the invariant -----

  lemma GuestSteps(s: State, step: Step, t: State)
    requires Inv(s) && Next(s, step, t) && (step.GuestWrite? || step.GuestCompute?)
    ensures Inv(t)
  {
  }

  /** Moving on without sending changes nothing of the copy. */
  lemma SyncedPhase(g: Guest, c: Copier, wire: seq<Msg>)
    ensures forall d: Copier, running :: d.pending == c.pending && d.sent == c.sent ==>
      (Synced(g, c, wire) <==> Synced(g.(running := running), d, wire))
  {
  }

  lemma DestinationSteps(s: State, step: Step, t: State)
    requires Inv(s) && Next(s, step, t) && (step.Take? || step.ReportRunning? || step.LoseDestination?)
    ensures Inv(t)
  {
    hide Copying, Passing, PagesOf, VcpuOf, Carried;
    if step.Take? { ReceivingStep(s.receiver, s.wire); }
  }

  lemma LogStep(s: State, order: seq<nat>, t: State)
    requires Inv(s) && Next(s, TakeLog(order), t)
    ensures Inv(t)
  {
    hide Synced, Receiving, PagesOf, VcpuOf, Carried, Snapshot, Members;
    SyncedLog(s.guest, s.copier, s.wire, order, t.copier.phase);
  }

  lemma PlainSteps(s: State, step: Step, t: State)
    requires Inv(s) && Next(s, step, t) && (step.EndPass? || step.DeleteSource? || step.BreakSource?)
    ensures Inv(t)
  {
    hide Synced, Receiving, PagesOf, VcpuOf, Carried;
    SyncedPhase(s.guest, s.copier, s.wire);
    assert s.guest.(running := s.guest.running) == s.guest;
  }

  lemma PageStep(s: State)
    requires Inv(s) && s.copier.phase.Send? && s.copier.sent < |s.copier.pending|
    ensures Inv(SentPage(s))
  {
    hide Synced, Receiving, PagesOf, VcpuOf;
    var p := s.copier.pending[s.copier.sent];
    SyncedPage(s.guest, s.copier, s.wire);
    ReceivingMore(s.receiver, s.wire, Page(p.gpa, p.data));
  }

  lemma HelloStep(s: State)
    requires Inv(s) && s.copier.phase.Connect?
    ensures Inv(Sent(s, AwaitReady, Hello))
  {
  }

  lemma VcpuStep(s: State)
    requires Inv(s) && s.copier.phase.SendVcpu?
    ensures Inv(Sent(s, MoveMaps, VcpuState(s.guest.regs)))
  {
    hide Synced, Receiving, PagesOf, VcpuOf;
    var m := VcpuState(s.guest.regs);
    SyncedOther(s.guest, s.copier, s.wire, m);
    SyncedPhase(s.guest, s.copier, s.wire + [m]);
    SentOne(s.wire, m);
    ReceivingMore(s.receiver, s.wire, m);
  }

  lemma DoneStep(s: State)
    requires Inv(s) && s.copier.phase.SendDone?
    ensures Inv(Sent(s, AwaitRunning, Done))
  {
    hide Synced, Receiving, PagesOf, VcpuOf;
    SyncedAll(s.guest, s.copier, s.wire);
    SyncedOther(s.guest, s.copier, s.wire, Done);
    SyncedPhase(s.guest, s.copier, s.wire + [Done]);
    SentOne(s.wire, Done);
    ReceivingMore(s.receiver, s.wire, Done);
    assert (s.wire + [Done])[..|s.wire|] == s.wire;
  }

  lemma TrackStep(s: State, t: State)
    requires Inv(s) && s.copier.phase.Track? && Advances(s, t)
    ensures Inv(t)
  {
    hide Receiving, PagesOf, VcpuOf;
    assert t.copier.pending[t.copier.sent..] == [];
    assert Flush(PagesOf(t.wire), []) == PagesOf(t.wire);
    hide Flush;
  }

  lemma OtherAdvances(s: State, t: State)
    requires Inv(s) && Advances(s, t) && !s.copier.phase.Send? && !s.copier.phase.Connect? && !s.copier.phase.Track?
    requires !s.copier.phase.SendVcpu? && !s.copier.phase.SendDone?
    ensures Inv(t)
  {
    hide Synced, Receiving, PagesOf, VcpuOf;
    SyncedPhase(s.guest, s.copier, s.wire);
  }

  lemma InvStep(s: State, step: Step, t: State)
    requires Inv(s) && Next(s, step, t)
    ensures Inv(t)
  {
    hide Inv, Takes;
    match step
    case GuestWrite(_, _) => GuestSteps(s, step, t);
    case GuestCompute(_) => GuestSteps(s, step, t);
    case TakeLog(order) => LogStep(s, order, t);
    case EndPass(_, _) => PlainSteps(s, step, t);
    case DeleteSource(_) => PlainSteps(s, step, t);
    case BreakSource => PlainSteps(s, step, t);
    case Take => DestinationSteps(s, step, t);
    case ReportRunning => DestinationSteps(s, step, t);
    case LoseDestination => DestinationSteps(s, step, t);
    case Advance =>
      match s.copier.phase
      case Connect => HelloStep(s);
      case Send(_) => PageStep(s);
      case SendVcpu => VcpuStep(s);
      case SendDone => DoneStep(s);
      case Track => TrackStep(s, t);
      case _ => OtherAdvances(s, t);
  }

  lemma {:induction false} PathInv(states: seq<State>, steps: seq<Step>, i: nat)
    requires Path(states, steps) && i < |states| && Inv(states[0])
    ensures Inv(states[i])
  {
    hide Inv, Next;
    if i > 0 {
      PathInv(states, steps, i - 1);
      assert Next(states[i - 1], steps[i - 1], states[i - 1 + 1]);
      InvStep(states[i - 1], steps[i - 1], states[i]);
    }
  }

  /** The invariant holds all along every run. */
  lemma InvAlways(states: seq<State>, steps: seq<Step>, i: nat)
    requires Run(states, steps) && i < |states|
    ensures Inv(states[i])
  {
    hide Inv, Next;
    InvInitial(states[0]);
    PathInv(states, steps, i);
  }

  lemma InvInitial(s: State)
    requires Initial(s)
    ensures Inv(s)
  {
  }

  // ----- What holds along every run -----

  lemma StartedCarried(s: State)
    requires Inv(s) && s.receiver.started
    ensures s.receiver.taken == |s.wire| && Carried(s.guest, s.wire)
  {
  }

  /** The two copies of the machine never run at the same time. */
  lemma NeverTwoCopies(states: seq<State>, steps: seq<Step>, i: nat)
    requires Run(states, steps) && i < |states|
    ensures !(states[i].guest.running && states[i].receiver.started)
  {
    InvAlways(states, steps, i);
    hide Inv, Run;
    if states[i].receiver.started { StartedCarried(states[i]); }
  }

  /** The source is deleted only when the destination runs. */
  lemma DeletedOnlyWhenStarted(states: seq<State>, steps: seq<Step>, i: nat)
    requires Run(states, steps) && i < |states| && states[i].deleted
    ensures states[i].receiver.started && !states[i].guest.running
  {
    InvAlways(states, steps, i);
    NeverTwoCopies(states, steps, i);
    hide Run, Copying, Sending, Receiving, Passing;
  }

  /** No step resumes a paused source or changes its memory and registers. */
  lemma PausedStays(s: State, step: Step, t: State)
    requires Next(s, step, t) && !s.guest.running
    ensures !t.guest.running && t.guest.memory == s.guest.memory && t.guest.regs == s.guest.regs
  {
    hide Snapshot;
  }

  /** The machine at state `i` of a run is what it was when the source paused. */
  lemma {:induction false} PausedAt(states: seq<State>, steps: seq<Step>, i: nat) returns (j: nat)
    requires Run(states, steps) && i < |states| && !states[i].guest.running
    ensures j < i && states[j].guest.running && !states[j + 1].guest.running && steps[j] == Advance && states[j].copier.phase == Pause
    ensures states[i].guest.memory == states[j].guest.memory && states[i].guest.regs == states[j].guest.regs
  {
    assert i > 0;
    assert Next(states[i - 1], steps[i - 1], states[i - 1 + 1]);
    if states[i - 1].guest.running {
      j := i - 1;
      PausingStep(states[j], steps[j], states[j + 1]);
    } else {
      hide Next;
      PausedStays(states[i - 1], steps[i - 1], states[i]);
      j := PausedAt(states, steps, i - 1);
    }
  }

  lemma PausingStep(s: State, step: Step, t: State)
    requires Next(s, step, t) && s.guest.running && !t.guest.running
    ensures step == Advance && s.copier.phase == Pause && t.guest.memory == s.guest.memory && t.guest.regs == s.guest.regs
  {
    hide Snapshot;
  }

  /** When the destination starts, the source was paused before, and the destination has exactly the
      memory and the registers the source had at the pause. */
  lemma StartsWithPausedMachine(states: seq<State>, steps: seq<Step>, i: nat) returns (j: nat)
    requires Run(states, steps) && i < |states| && states[i].receiver.started
    ensures j < i && states[j].copier.phase == Pause && states[j].guest.running && !states[j + 1].guest.running
    ensures states[i].receiver.pages == states[j].guest.memory && states[i].receiver.vcpu == Some(states[j].guest.regs)
  {
    InvAlways(states, steps, i);
    hide Run, Inv, PagesOf, VcpuOf;
    StartedCarried(states[i]);
    StartedPages(states[i]);
    j := PausedAt(states, steps, i);
  }

  /** The iterative phase makes one pass, whatever the threshold. */
  lemma OnePass(states: seq<State>, steps: seq<Step>, i: nat)
    requires Run(states, steps) && i < |states|
    ensures states[i].copier.pass <= 1
    ensures Stopped(states[i].copier.phase) ==> states[i].copier.pass == 1
  {
    InvAlways(states, steps, i);
    hide Run, Copying, Sending, Receiving, Answering;
  }

  // ----- A migration can complete -----

  /** Some steps lead from `o` to `s`. */
  ghost predicate Leads(o: State, s: State) {
    exists states, steps :: Path(states, steps) && states[0] == o && states[|steps|] == s
  }

  lemma LeadsNowhere(o: State)
    ensures Leads(o, o)
  {
    assert Path([o], []);
  }

  lemma LeadsOn(o: State, s: State, step: Step, t: State)
    requires Leads(o, s) && Next(s, step, t)
    ensures Leads(o, t)
  {
    hide Next;
    var states, steps :| Path(states, steps) && states[0] == o && states[|steps|] == s;
    var more, further := states + [t], steps + [step];
    forall i | 0 <= i < |further| ensures Next(more[i], further[i], more[i + 1]) {
      if i < |steps| {
        assert more[i] == states[i] && more[i + 1] == states[i + 1] && further[i] == steps[i];
      }
    }
    assert Path(more, further);
  }

  lemma LeadsInv(o: State, s: State)
    requires Leads(o, s) && Inv(o)
    ensures Inv(s)
  {
    hide Next, Inv;
    var states, steps :| Path(states, steps) && states[0] == o && states[|steps|] == s;
    PathInv(states, steps, |steps|);
  }

  lemma {:induction false} SendsAll(o: State, s: State) returns (t: State)
    requires Leads(o, s) && s.copier.phase.Send? && s.copier.sent <= |s.copier.pending|
    ensures Leads(o, t) && t.copier == s.copier.(sent := |s.copier.pending|)
    ensures t.receiver == s.receiver && t.guest == s.guest
    decreases |s.copier.pending| - s.copier.sent
  {
    hide Leads;
    if s.copier.sent == |s.copier.pending| {
      t := s;
    } else {
      LeadsOn(o, s, Advance, SentPage(s));
      t := SendsAll(o, SentPage(s));
    }
  }

  lemma {:induction false} Ordering(xs: set<nat>) returns (order: seq<nat>)
    ensures Members(order) == xs
  {
    if xs == {} {
      order := [];
    } else {
      var x :| x in xs;
      order := Ordering(xs - {x});
      MembersAppend(order, x);
      order := order + [x];
    }
  }

  /** A whole pass: log, pages, end. */
  lemma MakesPass(o: State, s: State) returns (t: State)
    requires Inv(o) && Leads(o, s) && s.copier.phase.ReadLog? && s.receiver.phase.Receive?
    ensures Leads(o, t) && t.receiver.phase.Receive? && t.guest.memory == s.guest.memory
    ensures t.copier.phase == if s.copier.phase == ReadLog(true) then SendVcpu else Pause
  {
    LeadsInv(o, s);
    hide Leads, Flush, PagesOf, Snapshot, Sending, Receiving, Answering;
    var order := Ordering(s.guest.dirty);
    assert forall i :: 0 <= i < |order| ==> order[i] in Members(order);
    var u := TookLog(s, order);
    LeadsOn(o, s, TakeLog(order), u);
    u := SendsAll(o, u);
    t := u.(copier := EndedPass(u.copier, 0, false));
    LeadsOn(o, u, EndPass(0, false), t);
  }

  lemma MoreToTake(s: State)
    requires Inv(s) && s.receiver.phase.Receive? && Done in s.wire
    ensures s.receiver.taken < |s.wire|
  {
    hide Copying, Answering, Passing, PagesOf, VcpuOf;
    assert s.wire[..|s.wire|] == s.wire;
  }

  lemma {:induction false} TakesAll(o: State, s: State) returns (t: State)
    requires Inv(o) && Leads(o, s) && s.receiver.phase.Receive? && Done in s.wire
    ensures Leads(o, t) && t.receiver.phase.Report? && t.receiver.started && t.copier == s.copier && t.guest == s.guest
    decreases |s.wire| - s.receiver.taken
  {
    hide Leads, Inv;
    LeadsInv(o, s);
    MoreToTake(s);
    var m := s.wire[s.receiver.taken];
    t := s.(receiver := Reaction(s.receiver, m));
    LeadsOn(o, s, Take, t);
    if m != Done {
      t := TakesAll(o, t);
    }
  }

  lemma Handshake(o: State) returns (t: State)
    requires Initial(o)
    ensures Leads(o, t) && t.copier.phase == ReadLog(false) && t.receiver.phase.Receive?
    ensures t.guest.memory == o.guest.memory
  {
    LeadsNowhere(o);
    hide Leads;
    var a := Sent(o, AwaitReady, Hello);
    LeadsOn(o, o, Advance, a);
    var b := a.(receiver := Reaction(a.receiver, Hello), back := a.back + [Ready]);
    LeadsOn(o, a, Take, b);
    var c := Expected(b, Ready, Track);
    LeadsOn(o, b, Advance, c);
    t := Goto(c, ReadLog(false)).(guest := c.guest.(dirty := c.guest.memory.Keys));
    LeadsOn(o, c, Advance, t);
  }

  /** Registers and `Done` are sent, by a source that is about to send either. */
  lemma SendsDone(o: State, s: State) returns (t: State)
    requires Leads(o, s) && s.receiver.phase.Receive?
    requires s.copier.phase == SendVcpu || s.copier.phase == MoveMaps || s.copier.phase == SendDone
    ensures Leads(o, t) && t.copier.phase == AwaitRunning && t.receiver.phase.Receive? && Done in t.wire && t.guest == s.guest
  {
    hide Leads;
    var u := s;
    if u.copier.phase == SendVcpu {
      u := Sent(u, MoveMaps, VcpuState(u.guest.regs));
      LeadsOn(o, s, Advance, u);
    }
    if u.copier.phase == MoveMaps {
      LeadsOn(o, u, Advance, Goto(u, SendDone));
      u := Goto(u, SendDone);
    }
    t := Sent(u, AwaitRunning, Done);
    LeadsOn(o, u, Advance, t);
  }

  /** The destination reports and the source is deleted. */
  lemma Finishes(o: State, s: State) returns (t: State)
    requires Inv(o) && Leads(o, s) && s.copier.phase == AwaitRunning && s.receiver.phase.Report?
    ensures Leads(o, t) && t.copier.phase == Complete && t.deleted && t.receiver.started && t.guest == s.guest
  {
    hide Leads;
    var a := s.(receiver := s.receiver.(phase := Over), back := s.back + [Running]);
    LeadsOn(o, s, ReportRunning, a);
    AnswerWaits(o, s, a);
    var b := Expected(a, Running, Switch);
    LeadsOn(o, a, Advance, b);
    var c := Goto(b, Delete);
    LeadsOn(o, b, Advance, c);
    t := Goto(c, Complete).(deleted := true);
    LeadsOn(o, c, DeleteSource(true), t);
  }

  lemma AnswerWaits(o: State, d: State, e: State)
    requires Inv(o) && Leads(o, d) && d.copier.phase.AwaitRunning? && d.receiver.phase.Report?
    requires e == d.(receiver := d.receiver.(phase := Over), back := d.back + [Running])
    ensures e.backTaken < |e.back| && e.back[e.backTaken] == Running && d.receiver.started
  {
    LeadsInv(o, d);
    hide Leads, Copying, Sending, Receiving, Passing;
  }

  /** From every start there is a run that ends with the source deleted and the destination running on
      the source's memory. */
  lemma CanComplete(o: State) returns (t: State)
    requires Initial(o)
    ensures Leads(o, t) && t.copier.phase == Complete && t.deleted && t.receiver.started
    ensures t.receiver.pages == o.guest.memory
  {
    InvInitial(o);
    hide Leads, Inv;
    t := Handshake(o);
    t := MakesPass(o, t);
    var u := Goto(t, ReadLog(true)).(guest := t.guest.(running := false));
    LeadsOn(o, t, Advance, u);
    t := MakesPass(o, u);
    t := SendsDone(o, t);
    t := TakesAll(o, t);
    t := Finishes(o, t);
    LeadsInv(o, t);
    StartedPages(t);
  }

  lemma StartedPages(s: State)
    requires Inv(s) && s.receiver.started
    ensures s.receiver.pages == s.guest.memory && s.receiver.vcpu == Some(s.guest.regs)
  {
    StartedCarried(s);
    assert s.wire[..s.receiver.taken] == s.wire;
    hide Copying, Sending, Answering, Passing, PagesOf, VcpuOf;
  }

  // ----- When no copy will ever run again -----

  ghost predicate CopyRuns(s: State) {
    s.guest.running || s.receiver.started
  }

  /** Neither copy runs, and the destination is lost, or the source has given up without sending `Done`. */
  ghost predicate Stranded(s: State) {
    && !s.guest.running && !s.receiver.started
    && (s.receiver.phase.Lost? || (s.copier.phase.Broken? && Done !in s.wire))
  }

  lemma StrandedStep(s: State, step: Step, t: State)
    requires Stranded(s) && Next(s, step, t)
    ensures Stranded(t)
  {
    hide Snapshot;
  }

  lemma {:induction false} StillStranded(states: seq<State>, steps: seq<Step>, i: nat, k: nat)
    requires Path(states, steps) && i <= k < |states| && Stranded(states[i])
    ensures Stranded(states[k])
    decreases k
  {
    hide Next, Stranded;
    if i < k {
      StillStranded(states, steps, i, k - 1);
      assert Next(states[k - 1], steps[k - 1], states[k - 1 + 1]);
      StrandedStep(states[k - 1], steps[k - 1], states[k]);
    }
  }

  /** A stopped source that has not given up gets to `Done`, while the destination is there. */
  lemma GetsToDone(o: State, s: State) returns (t: State)
    requires Inv(o) && Leads(o, s) && Stopped(s.copier.phase) && s.receiver.phase.Receive? && Done !in s.wire
    requires !DoneSent(s.copier.phase)
    ensures Leads(o, t) && t.receiver.phase.Receive? && Done in t.wire
  {
    hide Leads;
    t := s;
    if s.copier.phase == ReadLog(true) {
      t := MakesPass(o, s);
    } else if s.copier.phase == Send(true) {
      SentBound(o, s);
      var u := SendsAll(o, s);
      t := u.(copier := EndedPass(u.copier, 0, false));
      LeadsOn(o, u, EndPass(0, false), t);
    }
    t := SendsDone(o, t);
  }

  lemma SentBound(o: State, s: State)
    requires Inv(o) && Leads(o, s) && s.copier.phase.Send?
    ensures s.copier.sent <= |s.copier.pending|
  {
    LeadsInv(o, s);
    hide Leads, Sending, Receiving, Answering, Passing, Flush, PagesOf;
  }

  /** A stopped machine whose destination is there: what the invariant says about the two sides. */
  lemma StoppedSides(s: State)
    requires Inv(s) && !CopyRuns(s) && !Stranded(s)
    ensures s.receiver.phase.AwaitHello? || s.receiver.phase.Receive?
    ensures s.receiver.phase.AwaitHello? ==> Done in s.wire
    ensures Done !in s.wire ==> Stopped(s.copier.phase) && !DoneSent(s.copier.phase)
    ensures s.wire != [] && s.wire[0] == Hello
    ensures s.receiver.phase.AwaitHello? ==> s.receiver.taken == 0
  {
    hide Synced, PagesOf, VcpuOf;
  }

  /** From a state that is not stranded some steps lead to one in which a copy runs. */
  lemma Rescued(o: State) returns (t: State)
    requires Inv(o) && !Stranded(o)
    ensures Leads(o, t) && CopyRuns(t)
  {
    LeadsNowhere(o);
    if CopyRuns(o) { return o; }
    StoppedSides(o);
    hide Leads, Inv, Stranded;
    t := o;
    if o.receiver.phase.AwaitHello? {
      t := o.(receiver := Reaction(o.receiver, Hello), back := o.back + [Ready]);
      LeadsOn(o, o, Take, t);
    }
    if Done !in t.wire {
      t := GetsToDone(o, t);
    }
    t := TakesAll(o, t);
  }

  /** In every state of every run: no continuation has a running copy if and only if neither copy runs and the
      destination is lost, or the source has given up without sending `Done`. */
  lemma StrandedExactly(states: seq<State>, steps: seq<Step>, i: nat)
    requires Run(states, steps) && i < |states|
    ensures (forall t :: Leads(states[i], t) ==> !CopyRuns(t)) <==> Stranded(states[i])
  {
    InvAlways(states, steps, i);
    var o := states[i];
    hide Run, Inv;
    if Stranded(o) {
      forall t | Leads(o, t) ensures !CopyRuns(t) {
        StrandedForEver(o, t);
      }
    } else {
      var t := Rescued(o);
    }
  }

  lemma StrandedForEver(o: State, t: State)
    requires Stranded(o) && Leads(o, t)
    ensures Stranded(t) && !CopyRuns(t)
  {
    hide Next;
    var states, steps :| Path(states, steps) && states[0] == o && states[|steps|] == t;
    StillStranded(states, steps, 0, |steps|);
  }

  /** Every phase from the pause to the sending of `Done` can fail into such a state. */
  lemma FailureStrands(states: seq<State>, steps: seq<Step>, i: nat)
    requires Run(states, steps) && i < |steps| && steps[i] == BreakSource
    requires Stopped(states[i].copier.phase) && !DoneSent(states[i].copier.phase)
    ensures Stranded(states[i + 1])
  {
    InvAlways(states, steps, i);
    assert Next(states[i], steps[i], states[i + 1]);
    hide Run, Synced, Answering, Passing, PagesOf, VcpuOf;
  }

  /** From every start there is a run that strands the machine before `Done` is sent, and one that strands it
      afterwards, the destination being lost with `Done` on its way. */
  lemma CanStrand(o: State) returns (early: State, late: State)
    requires Initial(o)
    ensures Leads(o, early) && Stranded(early) && early.copier.phase.Broken? && Done !in early.wire
    ensures Leads(o, late) && Stranded(late) && late.copier.phase.Broken? && Done in late.wire
  {
    InvInitial(o);
    hide Leads, Inv;
    var t := Handshake(o);
    t := MakesPass(o, t);
    var u := Goto(t, ReadLog(true)).(guest := t.guest.(running := false));
    LeadsOn(o, t, Advance, u);
    early := Goto(u, Broken);
    LeadsOn(o, u, BreakSource, early);
    BeforeDone(o, u);
    var v := MakesPass(o, u);
    v := SendsDone(o, v);
    var w := v.(receiver := v.receiver.(phase := Lost));
    LeadsOn(o, v, LoseDestination, w);
    late := Goto(w, Broken);
    LeadsOn(o, w, BreakSource, late);
    BeforeDone(o, v);
    StoppedAfterDone(o, v);
  }

  lemma BeforeDone(o: State, s: State)
    requires Inv(o) && Leads(o, s) && s.receiver.phase.Receive?
    ensures !s.receiver.started && (!DoneSent(s.copier.phase) && !s.copier.phase.Broken? ==> Done !in s.wire)
  {
    LeadsInv(o, s);
    hide Leads, Copying, Answering, Passing, PagesOf, VcpuOf, Carried;
  }

  lemma StoppedAfterDone(o: State, s: State)
    requires Inv(o) && Leads(o, s) && s.copier.phase == AwaitRunning
    ensures !s.guest.running
  {
    LeadsInv(o, s);
    hide Leads, Synced, Sending, Receiving, Answering, Passing, PagesOf;
  }

  // ----- The pages of a log as bytes -----

  /** The messages for a log. */
  function Wired(log: seq<LogEntry>): (msgs: seq<MigWire.Msg>)
    ensures |msgs| == |log|
    ensures forall i :: 0 <= i < |log| ==> msgs[i] == MigWire.Msg(MigWire.Page, MigWire.PagePayload(log[i].gpa, log[i].data))
  {
    seq(|log|, i requires 0 <= i < |log| => MigWire.Msg(MigWire.Page, MigWire.PagePayload(log[i].gpa, log[i].data)))
  }

  /** `copy_dirty_pages`: what it returns is the number of pages read less the number sent. */
  method CopyDirtyPages(log: seq<LogEntry>, stream: MigWire.Stream) returns (remaining: nat)
    modifies stream
    ensures stream.data == old(stream.data) + MigWire.EncodeAll(Wired(log))
    ensures remaining == 0
  {
    hide MigWire.Encode;
    var sent := 0;
    assert stream.data + [] == stream.data;
    for i := 0 to |log|
      invariant sent == i && stream.data == old(stream.data) + MigWire.EncodeAll(Wired(log)[..i])
    {
      MigWire.EncodeOneMore(Wired(log), i);
      stream.SendPage(log[i].gpa, log[i].data);
      sent := sent + 1;
    }
    assert Wired(log)[..|log|] == Wired(log);
    remaining := |log| - sent;
  }

  /** The destination's page map after `PAGE` messages. */
  function Rebuild(pages: map<nat, Contents>, msgs: seq<MigWire.Msg>): map<nat, Contents>
    decreases |msgs|
  {
    if msgs == [] then pages
    else
      var page := MigWire.PageOf(msgs[0].payload);
      Rebuild(if msgs[0].kind == MigWire.Page && page.Some? then pages[page.value.0 := page.value.1] else pages, msgs[1..])
  }

  /** A log sent as bytes arrives as the pages it holds. */
  lemma {:induction false} LogArrives(pages: map<nat, Contents>, log: seq<LogEntry>)
    requires forall i :: 0 <= i < |log| ==> log[i].gpa < Bits.W && |log[i].data| + 8 < MigWire.LENGTH_LIMIT
    ensures MigWire.DecodeAll(MigWire.EncodeAll(Wired(log))) == Some(Wired(log))
    ensures Rebuild(pages, Wired(log)) == Flush(pages, log)
    decreases |log|
  {
    hide MigWire.Encode, MigWire.EncodeAll, MigWire.DecodeAll;
    MigWire.StreamRoundTrip(Wired(log));
    if log != [] {
      MigWire.PageRoundTrip(log[0].gpa, log[0].data);
      assert Wired(log)[1..] == Wired(log[1..]);
      LogArrives(pages[log[0].gpa := log[0].data], log[1..]);
    }
  }

  // ----- The whole stream as bytes -----

  /** A message as it is sent; `config` is the payload of `HELLO`. */
  function ToWire(m: Msg, config: seq<byte>): MigWire.Msg {
    match m
    case Hello => MigWire.Msg(MigWire.Hello, config)
    case Ready => MigWire.Msg(MigWire.Ready, [])
    case Page(gpa, data) => MigWire.Msg(MigWire.Page, MigWire.PagePayload(gpa, data))
    case VcpuState(regs) => MigWire.Msg(MigWire.VcpuState, regs)
    case Done => MigWire.Msg(MigWire.Done, [])
    case Running => MigWire.Msg(MigWire.Running, [])
  }

  /** A message as the receiver takes it; the two kinds that are never sent stand for nothing. */
  function FromWire(m: MigWire.Msg): Option<Msg> {
    match m.kind
    case Hello => Some(Hello)
    case Ready => Some(Ready)
    case Page =>
      var page := MigWire.PageOf(m.payload);
      if page.Some? then Some(Page(page.value.0, page.value.1)) else None
    case VcpuState => Some(VcpuState(m.payload))
    case Done => Some(Done)
    case Running => Some(Running)
    case Pause => None
    case Error => None
  }

  function AllToWire(msgs: seq<Msg>, config: seq<byte>): (sent: seq<MigWire.Msg>)
    ensures |sent| == |msgs| && forall k :: 0 <= k < |msgs| ==> sent[k] == ToWire(msgs[k], config)
  {
    seq(|msgs|, k requires 0 <= k < |msgs| => ToWire(msgs[k], config))
  }

  /** The bytes that the source has put on the stream. */
  function StreamBytes(s: State, config: seq<byte>): seq<byte> {
    MigWire.EncodeAll(AllToWire(s.wire, config))
  }

  ghost predicate LogIn(log: seq<LogEntry>, addresses: set<nat>) {
    forall k :: 0 <= k < |log| ==> log[k].gpa in addresses
  }

  ghost predicate PagesIn(wire: seq<Msg>, addresses: set<nat>) {
    forall k :: 0 <= k < |wire| && wire[k].Page? ==> wire[k].gpa in addresses
  }

  /** Pages have the addresses the guest's memory has. */
  ghost predicate Addressed(s: State, addresses: set<nat>) {
    s.guest.memory.Keys == addresses && LogIn(s.copier.pending, addresses) && PagesIn(s.wire, addresses)
  }

  lemma PagesInMore(wire: seq<Msg>, m: Msg, addresses: set<nat>)
    requires PagesIn(wire, addresses) && (m.Page? ==> m.gpa in addresses)
    ensures PagesIn(wire + [m], addresses)
  {
  }

  lemma AddressedStep(s: State, step: Step, t: State, addresses: set<nat>)
    requires Addressed(s, addresses) && Next(s, step, t)
    ensures Addressed(t, addresses)
  {
    hide PagesIn, LogIn, Reaction, Snapshot;
    if step.Advance? {
      AddressedAdvance(s, t, addresses);
    } else if step.TakeLog? {
      LogAddressed(s.guest.memory, step.order, addresses);
    }
  }

  lemma LogAddressed(memory: map<nat, Contents>, order: seq<nat>, addresses: set<nat>)
    requires memory.Keys == addresses && forall i :: 0 <= i < |order| ==> order[i] in memory
    ensures LogIn(Snapshot(memory, order), addresses)
  {
  }

  lemma AddressedAdvance(s: State, t: State, addresses: set<nat>)
    requires Addressed(s, addresses) && Advances(s, t)
    ensures Addressed(t, addresses)
  {
    hide PagesIn;
    PagesInMore(s.wire, Hello, addresses);
    PagesInMore(s.wire, VcpuState(s.guest.regs), addresses);
    PagesInMore(s.wire, Done, addresses);
    if s.copier.phase.Send? {
      var p := s.copier.pending[s.copier.sent];
      PagesInMore(s.wire, Page(p.gpa, p.data), addresses);
    }
    hide LogIn;
  }

  lemma {:induction false} AddressedAlways(states: seq<State>, steps: seq<Step>, i: nat)
    requires Run(states, steps) && i < |states|
    ensures Addressed(states[i], states[0].guest.memory.Keys)
  {
    if i > 0 {
      hide Next, Addressed;
      AddressedAlways(states, steps, i - 1);
      assert Next(states[i - 1], steps[i - 1], states[i - 1 + 1]);
      AddressedStep(states[i - 1], steps[i - 1], states[i], states[0].guest.memory.Keys);
    }
  }

  lemma MessageRoundTrip(m: Msg, config: seq<byte>)
    requires m.Page? ==> m.gpa < Bits.W
    ensures FromWire(ToWire(m, config)) == Some(m)
  {
    hide MigWire.PageOf, MigWire.PagePayload;
    if m.Page? { MigWire.PageRoundTrip(m.gpa, m.data); }
  }

  /** Along every run of a machine with 64-bit addresses, the bytes sent decode to the messages of the step
      machine, if and only if every payload is shorter than 2^32 bytes; and each decoded message is the one
      that the destination's step takes. */
  lemma BytesCarryWire(states: seq<State>, steps: seq<Step>, i: nat, config: seq<byte>)
    requires Run(states, steps) && i < |states|
    requires forall gpa :: gpa in states[0].guest.memory ==> gpa < Bits.W
    ensures var sent := AllToWire(states[i].wire, config);
            && (MigWire.DecodeAll(StreamBytes(states[i], config)) == Some(sent) <==>
                  forall k :: 0 <= k < |sent| ==> |sent[k].payload| < MigWire.LENGTH_LIMIT)
            && forall k :: 0 <= k < |sent| ==> FromWire(sent[k]) == Some(states[i].wire[k])
  {
    AddressedAlways(states, steps, i);
    hide Run, MigWire.EncodeAll, MigWire.DecodeAll, ToWire, FromWire;
    var wire := states[i].wire;
    MigWire.StreamRoundTrip(AllToWire(wire, config));
    forall k | 0 <= k < |wire| ensures FromWire(ToWire(wire[k], config)) == Some(wire[k]) {
      assert wire[k].Page? ==> wire[k].gpa in states[0].guest.memory.Keys;
      MessageRoundTrip(wire[k], config);
    }
  }
}
