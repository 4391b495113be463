/** The micro-segmentation policy engine: a dictionary of live policies compiled into the map that
    the packet filter looks flows up in. */
module Microseg {
  import opened Sequences
  import opened Bytes
  import opened Labels

  type u16 = x: int | 0 <= x < 0x1_0000

  datatype Action = Allow | Deny | Log
  datatype PortRule = PortRule(protocol: Option<string>, port: Option<u16>)
  datatype Policy = Policy(namespace: string, name: string, priority: byte, action: Action,
                           sources: seq<LabelSet>, destinations: seq<LabelSet>, ports: Option<seq<PortRule>>)

  datatype Key = Key(src: u32, dst: u32, proto: byte, port: u16)
  datatype Entry = Entry(verdict: Action, priority: byte)
  type Table = map<Key, Entry>

  // ----- What a policy generates -----

  function ProtoNum(name: Option<string>): byte {
    if name.None? then 0
    else if name.value == "TCP" || name.value == "tcp" then 6
    else if name.value == "UDP" || name.value == "udp" then 17
    else if name.value == "ICMP" || name.value == "icmp" then 1
    else 0
  }

  /** A port rule as numbers, 0 standing for any. */
  datatype Rule = Rule(proto: byte, port: u16)

  function RuleOf(rule: PortRule): Rule {
    Rule(ProtoNum(rule.protocol), if rule.port.None? then 0 else rule.port.value)
  }

  /** A policy without port rules has one rule for everything. */
  function Rules(p: Policy): seq<Rule> {
    if p.ports.None? || p.ports.value == [] then [Rule(0, 0)]
    else seq(|p.ports.value|, i requires 0 <= i < |p.ports.value| => RuleOf(p.ports.value[i]))
  }

  ghost function Identities(selectors: seq<LabelSet>): set<u32> {
    set labels | labels in selectors :: Identity(labels)
  }

  /** `p` has a rule for exactly the flows that `k` stands for. */
  ghost predicate Generates(p: Policy, k: Key) {
    k.src in Identities(p.sources) && k.dst in Identities(p.destinations) && Rule(k.proto, k.port) in Rules(p)
  }

  function EntryOf(p: Policy): Entry {
    Entry(p.action, p.priority)
  }

  /** `after` is `before` with `p` written over it. */
  ghost predicate Compiled(before: Table, p: Policy, after: Table) {
    forall k ::
      && (k in after <==> k in before || Generates(p, k))
      && (k in after ==> after[k] == if Generates(p, k) then EntryOf(p) else before[k])
  }

  // ----- States and runs -----

  datatype State = State(policies: map<string, Policy>, table: Table)
  datatype Event = Added(policy: Policy) | Modified(policy: Policy) | Deleted(name: string)

  function NameOf(p: Policy): string {
    p.namespace + "/" + p.name
  }

  /** Policies of different namespaces, or of different names, have different keys in the dictionary. */
  lemma NamesApart(p: Policy, q: Policy)
    requires '/' !in p.namespace && '/' !in q.namespace
    ensures NameOf(p) == NameOf(q) <==> p.namespace == q.namespace && p.name == q.name
  {
    if NameOf(p) == NameOf(q) {
      var whole, n := NameOf(p), |p.namespace|;
      assert whole[n] == '/' && NameOf(q)[|q.namespace|] == '/';
      SlashFirst(p, q);
      SlashFirst(q, p);
      assert whole[..n] == p.namespace && NameOf(q)[..n] == q.namespace;
      assert whole[n + 1..] == p.name && NameOf(q)[n + 1..] == q.name;
    }
  }

  lemma SlashFirst(p: Policy, q: Policy)
    requires '/' !in q.namespace && NameOf(p) == NameOf(q)
    ensures |q.namespace| <= |p.namespace|
  {
    assert NameOf(p)[|p.namespace|] == '/';
    assert forall i :: 0 <= i < |q.namespace| ==> NameOf(q)[i] == q.namespace[i];
  }

  /** `table` results from compiling the policies named in `order` one after the other. */
  ghost predicate Recompiled(policies: map<string, Policy>, order: seq<string>, table: Table)
    decreases |order|
  {
    if order == [] then table == map[]
    else
      var last := order[|order| - 1];
      last in policies && exists before ::
        Recompiled(policies, order[..|order| - 1], before) && Compiled(before, policies[last], table)
  }

  ghost predicate Next(s: State, e: Event, t: State) {
    match e
    case Added(p) => t.policies == s.policies[NameOf(p) := p] && Compiled(s.table, p, t.table)
    case Modified(p) => t.policies == s.policies[NameOf(p) := p] && Compiled(s.table, p, t.table)
    case Deleted(name) =>
      && t.policies == s.policies - {name}
      && exists order :: Distinct(order) && Members(order) == t.policies.Keys && Recompiled(t.policies, order, t.table)
  }

  ghost predicate Run(states: seq<State>, events: seq<Event>) {
    && |states| == |events| + 1
    && forall i :: 0 <= i < |events| ==> Next(states[i], events[i], states[i + 1])
  }

  // ----- What the table holds -----

  ghost predicate Live(policies: map<string, Policy>, k: Key) {
    exists name :: name in policies && Generates(policies[name], k)
  }

  /** Every key of a live policy is in the table. */
  ghost predicate Covered(s: State) {
    forall k :: Live(s.policies, k) ==> k in s.table
  }

  /** A live policy generates `k` and the entry `e` for it. */
  ghost predicate Backed(policies: map<string, Policy>, k: Key, e: Entry) {
    exists name :: name in policies && Generates(policies[name], k) && EntryOf(policies[name]) == e
  }

  /** The table holds the keys of the live policies and nothing else, each with an entry that a live
      policy generates for it. */
  ghost predicate Exact(s: State) {
    Covered(s) && forall k :: k in s.table ==> Backed(s.policies, k, s.table[k])
  }

  lemma CompileCovers(s: State, p: Policy, t: State)
    requires Covered(s) && t.policies == s.policies[NameOf(p) := p] && Compiled(s.table, p, t.table)
    ensures Covered(t)
  {
  }

  lemma {:induction false} RecompiledExact(policies: map<string, Policy>, order: seq<string>, table: Table)
    requires Recompiled(policies, order, table)
    ensures forall i :: 0 <= i < |order| ==> order[i] in policies
    ensures forall i, k :: 0 <= i < |order| && Generates(policies[order[i]], k) ==> k in table
    ensures forall k :: k in table ==> Backed(policies, k, table[k])
    decreases |order|
  {
    hide Generates;
    if order != [] {
      var rest, last := order[..|order| - 1], order[|order| - 1];
      var before :| Recompiled(policies, rest, before) && Compiled(before, policies[last], table);
      RecompiledExact(policies, rest, before);
      forall i | 0 <= i < |order| ensures order[i] in policies {
        assert i < |rest| ==> rest[i] == order[i];
      }
      forall i, k | 0 <= i < |order| && Generates(policies[order[i]], k) ensures k in table {
        assert i < |rest| ==> rest[i] == order[i];
      }
    }
  }

  /** Deleting a policy makes the table exact, whatever it held. */
  lemma DeletingMakesExact(s: State, name: string, t: State)
    requires Next(s, Deleted(name), t)
    ensures Exact(t)
  {
    hide Generates, Backed;
    var order :| Distinct(order) && Members(order) == t.policies.Keys && Recompiled(t.policies, order, t.table);
    RecompiledExact(t.policies, order, t.table);
    forall k | Live(t.policies, k) ensures k in t.table {
      var name :| name in t.policies && Generates(t.policies[name], k);
      assert name in Members(order);
      var i :| 0 <= i < |order| && order[i] == name;
      assert Generates(t.policies[order[i]], k);
    }
  }

  /** Over every run, every key of a live policy is in the table, even if the table held entries of an
      earlier engine at the start. */
  lemma {:induction false} LiveKeysPresent(states: seq<State>, events: seq<Event>)
    requires Run(states, events) && Covered(states[0])
    ensures forall i :: 0 <= i < |states| ==> Covered(states[i])
    decreases |events|
  {
    hide Covered;
    if events != [] {
      var n := |events| - 1;
      RunPrefix(states, events);
      LiveKeysPresent(states[..n + 1], events[..n]);
      assert states[..n + 1][n] == states[n];
      assert Next(states[n], events[n], states[n + 1]);
      match events[n]
      case Added(p) => CompileCovers(states[n], p, states[n + 1]);
      case Modified(p) => CompileCovers(states[n], p, states[n + 1]);
      case Deleted(name) => DeletingMakesExact(states[n], name, states[n + 1]);
        ExactCovered(states[n + 1]);
    }
  }

  lemma ExactCovered(s: State)
    requires Exact(s)
    ensures Covered(s)
  {
  }

  lemma RunPrefix(states: seq<State>, events: seq<Event>)
    requires Run(states, events) && events != []
    ensures Run(states[..|events|], events[..|events| - 1])
    ensures states[..|events|][0] == states[0]
  {
  }

  // ----- When a policy is written over an older one of the same name -----

  /** Every key that only the replaced policy generates is also generated, with the entry the table
      has for it, by another live policy. */
  ghost predicate Replaceable(s: State, p: Policy) {
    NameOf(p) in s.policies ==>
      forall k :: Generates(s.policies[NameOf(p)], k) && !Generates(p, k) ==>
        k in s.table && Backed(s.policies - {NameOf(p)}, k, s.table[k])
  }

  lemma WrittenExact(s: State, p: Policy, t: State)
    requires Exact(s) && t.policies == s.policies[NameOf(p) := p] && Compiled(s.table, p, t.table)
    requires Replaceable(s, p)
    ensures Exact(t)
  {
    hide Generates;
    CompileCovers(s, p, t);
    forall k | k in t.table ensures Backed(t.policies, k, t.table[k]) {
      if Generates(p, k) {
        assert t.policies[NameOf(p)] == p;
      } else {
        var name :| name in s.policies && Generates(s.policies[name], k) && EntryOf(s.policies[name]) == s.table[k];
        if name == NameOf(p) {
          var other :| other in s.policies - {name} && Generates(s.policies[other], k) && EntryOf(s.policies[other]) == s.table[k];
          assert t.policies[other] == s.policies[other];
        } else {
          assert t.policies[name] == s.policies[name];
        }
      }
    }
  }

  lemma ExactReplaceable(s: State, p: Policy, t: State)
    requires Exact(s) && Exact(t) && t.policies == s.policies[NameOf(p) := p] && Compiled(s.table, p, t.table)
    ensures Replaceable(s, p)
  {
    hide Generates;
    if NameOf(p) in s.policies {
      forall k | Generates(s.policies[NameOf(p)], k) && !Generates(p, k)
        ensures k in s.table && Backed(s.policies - {NameOf(p)}, k, s.table[k])
      {
        assert Live(s.policies, k);
        assert k in t.table && Backed(t.policies, k, t.table[k]);
        var name :| name in t.policies && Generates(t.policies[name], k) && EntryOf(t.policies[name]) == t.table[k];
        assert name != NameOf(p) && t.policies[name] == s.policies[name];
        assert name in s.policies - {NameOf(p)};
      }
    }
  }

  /** Adding or modifying a policy keeps the table exact if and only if nothing of a replaced policy
      of the same name is left behind. */
  lemma WritingKeepsExact(s: State, e: Event, t: State)
    requires Exact(s) && !e.Deleted? && Next(s, e, t)
    ensures Exact(t) <==> Replaceable(s, e.policy)
  {
    hide Exact, Replaceable, Compiled;
    if Exact(t) { ExactReplaceable(s, e.policy, t); }
    if Replaceable(s, e.policy) { WrittenExact(s, e.policy, t); }
  }

  /** An event that replaces no policy, or one whose keys all survive. */
  ghost predicate Clean(s: State, e: Event) {
    e.Deleted? || Replaceable(s, e.policy)
  }

  lemma {:induction false} CleanRunExact(states: seq<State>, events: seq<Event>)
    requires Run(states, events) && Exact(states[0])
    requires forall i :: 0 <= i < |events| ==> Clean(states[i], events[i])
    ensures forall i :: 0 <= i < |states| ==> Exact(states[i])
    decreases |events|
  {
    hide Exact, Replaceable, Next;
    if events != [] {
      var n := |events| - 1;
      RunPrefix(states, events);
      CleanRunExact(states[..n + 1], events[..n]);
      assert states[..n + 1][n] == states[n];
      assert Next(states[n], events[n], states[n + 1]) && Clean(states[n], events[n]);
      if events[n].Deleted? {
        DeletingMakesExact(states[n], events[n].name, states[n + 1]);
      } else {
        WritingKeepsExact(states[n], events[n], states[n + 1]);
      }
    }
  }

  /** With policies added under fresh names and deleted, in any number and order, the table is always
      exact, in whatever order a deletion recompiles the rest. */
  lemma FreshRunExact(states: seq<State>, events: seq<Event>)
    requires Run(states, events) && Exact(states[0])
    requires forall i :: 0 <= i < |events| ==>
      events[i].Deleted? || (events[i].Added? && NameOf(events[i].policy) !in states[i].policies)
    ensures forall i :: 0 <= i < |states| ==> Exact(states[i])
  {
    hide Exact, Next;
    CleanRunExact(states, events);
  }

  /** A policy between the holders of one label set with a single port rule. */
  function OneRule(namespace: string, name: string, labels: LabelSet, rule: PortRule): Policy {
    Policy(namespace, name, 100, Allow, [labels], [labels], Some([rule]))
  }

  ghost function KeyOf(labels: LabelSet, rule: Rule): Key {
    Key(Identity(labels), Identity(labels), rule.proto, rule.port)
  }

  lemma OneRuleGenerates(namespace: string, name: string, labels: LabelSet, rule: PortRule)
    ensures forall k :: Generates(OneRule(namespace, name, labels, rule), k) <==> k == KeyOf(labels, RuleOf(rule))
    ensures Rules(OneRule(namespace, name, labels, rule)) == [RuleOf(rule)]
  {
  }

  /** Changing the only port rule of the only policy leaves the old key behind: the table lets the old
      flow through although no live policy generates it. */
  lemma ModifyingLeavesStale(namespace: string, name: string, labels: LabelSet, was: PortRule, now: PortRule, s: State, t: State)
    requires RuleOf(was) != RuleOf(now)
    requires var p := OneRule(namespace, name, labels, was);
             s == State(map[NameOf(p) := p], map[KeyOf(labels, RuleOf(was)) := EntryOf(p)])
    requires Next(s, Modified(OneRule(namespace, name, labels, now)), t)
    ensures var key := KeyOf(labels, RuleOf(was));
            Exact(s) && key in t.table && t.table[key].verdict == Allow && !Live(t.policies, key) && !Exact(t)
  {
    var p, q := OneRule(namespace, name, labels, was), OneRule(namespace, name, labels, now);
    OneRuleGenerates(namespace, name, labels, was);
    OneRuleGenerates(namespace, name, labels, now);
    hide Generates, RuleOf, Identity;
    assert s.policies[NameOf(p)] == p && NameOf(p) == NameOf(q);
    assert t.policies == map[NameOf(p) := q];
  }

  lemma OneSelector(labels: LabelSet)
    ensures Identities([labels]) == {Identity(labels)}
  {
  }

  // ----- The engine -----

  class Engine {
    var policies: map<string, Policy>
    var table: Table

    ghost function Current(): State
      reads this
    {
      State(policies, table)
    }

    constructor ()
      ensures policies == map[] && table == map[] && Exact(Current())
    {
      policies, table := map[], map[];
    }

    method WriteRules(src: u32, dst: u32, p: Policy)
      modifies this`table
      ensures Written(old(table), EntryOf(p), {src}, {dst}, Rules(p), table)
    {
      hide Written;
      WrittenNone(table, EntryOf(p), {src}, {dst}, []);
      if p.ports.None? || p.ports.value == [] {
        WrittenRule(table, EntryOf(p), src, dst, [], Rule(0, 0), table);
        table := table[Key(src, dst, 0, 0) := EntryOf(p)];
        assert [] + [Rule(0, 0)] == Rules(p);
      } else {
        var rules := p.ports.value;
        for i := 0 to |rules|
          invariant Written(old(table), EntryOf(p), {src}, {dst}, Rules(p)[..i], table)
        {
          var proto := ProtoNum(rules[i].protocol);
          var port := if rules[i].port.None? then 0 else rules[i].port.value;
          assert Rules(p)[..i + 1] == Rules(p)[..i] + [Rule(proto, port)];
          WrittenRule(old(table), EntryOf(p), src, dst, Rules(p)[..i], Rule(proto, port), table);
          table := table[Key(src, dst, proto, port) := EntryOf(p)];
        }
        assert Rules(p)[..|rules|] == Rules(p);
      }
    }

    /** The nested loops over sources, destinations and port rules. */
    method CompilePolicy(p: Policy)
      modifies this`table
      ensures Compiled(old(table), p, table)
    {
      hide Written, Compiled, Identities, EntryOf, Rules, Members;
      var srcIds := ResolveIdentities(p.sources);
      var dstIds := ResolveIdentities(p.destinations);
      ghost var e, rules := EntryOf(p), Rules(p);
      MembersFull(srcIds);
      MembersFull(dstIds);
      WrittenNone(table, e, {}, Members(dstIds), rules);
      for i := 0 to |srcIds|
        invariant Written(old(table), e, Members(srcIds[..i]), Members(dstIds), rules, table)
      {
        ghost var before := table;
        WrittenNone(before, e, {srcIds[i]}, {}, rules);
        for j := 0 to |dstIds|
          invariant Written(before, e, {srcIds[i]}, Members(dstIds[..j]), rules, table)
        {
          ghost var middle := table;
          WriteRules(srcIds[i], dstIds[j], p);
          WrittenDst(before, e, srcIds[i], Members(dstIds[..j]), dstIds[j], rules, middle, table);
          MembersPrefix(dstIds, j);
        }
        WrittenSrc(old(table), e, Members(srcIds[..i]), srcIds[i], Members(dstIds), rules, before, table);
        MembersPrefix(srcIds, i);
      }
      WrittenCompiled(old(table), p, table);
    }

    /** Clears the map and compiles every policy, in whatever order the dictionary yields them. */
    method RecompileAll()
      modifies this`table
      ensures exists order :: Distinct(order) && Members(order) == policies.Keys && Recompiled(policies, order, table)
    {
      hide Compiled, Recompiled, Distinct, Members;
      table := map[];
      var rest := policies;
      ghost var order: seq<string> := [];
      RecompiledNone(policies);
      while rest != map[]
        invariant Ordered(policies, order, rest)
        invariant Recompiled(policies, order, table)
        decreases |rest|
      {
        ghost var before := table;
        var name :| name in rest;
        CompilePolicy(rest[name]);
        RecompiledOne(policies, order, name, before, table);
        OrderOne(policies, order, rest, name);
        order := order + [name];
        rest := rest - {name};
      }
    }

    method Handle(e: Event)
      modifies this
      ensures Next(old(Current()), e, Current())
    {
      hide Compiled, Recompiled, Members, Distinct;
      match e
      case Added(p) =>
        CompilePolicy(p);
        policies := policies[NameOf(p) := p];
      case Deleted(name) =>
        policies := policies - {name};
        RecompileAll();
      case Modified(p) =>
        CompilePolicy(p);
        policies := policies[NameOf(p) := p];
    }

    /** The main loop: it performs a run. */
    method PolicyLoop(events: seq<Event>) returns (ghost states: seq<State>)
      modifies this
      ensures Run(states, events) && states[0] == old(Current()) && states[|events|] == Current()
    {
      hide Next;
      states := [Current()];
      for i := 0 to |events|
        invariant |states| == i + 1 && states[0] == old(Current()) && states[i] == Current()
        invariant forall j :: 0 <= j < i ==> Next(states[j], events[j], states[j + 1])
      {
        Handle(events[i]);
        states := states + [Current()];
      }
    }
  }

  method ResolveIdentities(selectors: seq<LabelSet>) returns (ids: seq<u32>)
    ensures |ids| == |selectors| && forall i :: 0 <= i < |ids| ==> ids[i] == Identity(selectors[i])
    ensures Members(ids) == Identities(selectors)
  {
    hide Identity;
    ids := [];
    for i := 0 to |selectors|
      invariant |ids| == i && forall j :: 0 <= j < i ==> ids[j] == Identity(selectors[j])
    {
      var id := LabelsToIdentity(selectors[i]);
      ids := ids + [id];
    }
  }

  ghost predicate Hits(k: Key, srcs: set<u32>, dsts: set<u32>, rules: seq<Rule>) {
    k.src in srcs && k.dst in dsts && Rule(k.proto, k.port) in rules
  }

  /** `after` is `before` with `rules` written for all pairs from `srcs` and `dsts`. */
  ghost predicate Written(before: Table, e: Entry, srcs: set<u32>, dsts: set<u32>, rules: seq<Rule>, after: Table) {
    forall k: Key ::
      && (k in after <==> k in before || Hits(k, srcs, dsts, rules))
      && (k in after ==> after[k] == if Hits(k, srcs, dsts, rules) then e else before[k])
  }

  lemma WrittenNone(table: Table, e: Entry, srcs: set<u32>, dsts: set<u32>, rules: seq<Rule>)
    requires srcs == {} || dsts == {} || rules == []
    ensures Written(table, e, srcs, dsts, rules, table)
  {
  }

  lemma WrittenRule(before: Table, e: Entry, src: u32, dst: u32, rules: seq<Rule>, rule: Rule, middle: Table)
    requires Written(before, e, {src}, {dst}, rules, middle)
    ensures Written(before, e, {src}, {dst}, rules + [rule], middle[Key(src, dst, rule.proto, rule.port) := e])
  {
  }

  lemma WrittenDst(before: Table, e: Entry, src: u32, dsts: set<u32>, dst: u32, rules: seq<Rule>, middle: Table, after: Table)
    requires Written(before, e, {src}, dsts, rules, middle) && Written(middle, e, {src}, {dst}, rules, after)
    ensures Written(before, e, {src}, dsts + {dst}, rules, after)
  {
  }

  lemma WrittenSrc(before: Table, e: Entry, srcs: set<u32>, src: u32, dsts: set<u32>, rules: seq<Rule>, middle: Table, after: Table)
    requires Written(before, e, srcs, dsts, rules, middle) && Written(middle, e, {src}, dsts, rules, after)
    ensures Written(before, e, srcs + {src}, dsts, rules, after)
  {
  }

  lemma WrittenCompiled(before: Table, p: Policy, after: Table)
    requires Written(before, EntryOf(p), Identities(p.sources), Identities(p.destinations), Rules(p), after)
    ensures Compiled(before, p, after)
  {
  }

  lemma MembersPrefix(s: seq<u32>, i: nat)
    requires i < |s|
    ensures Members(s[..i + 1]) == Members(s[..i]) + {s[i]}
  {
  }

  lemma MembersFull(s: seq<u32>)
    ensures Members(s[..0]) == {} && Members(s[..|s|]) == Members(s)
  {
  }

  /** `order` names the policies that are no longer in `rest`. */
  ghost predicate Ordered(policies: map<string, Policy>, order: seq<string>, rest: map<string, Policy>) {
    && rest.Keys <= policies.Keys && (forall name :: name in rest ==> rest[name] == policies[name])
    && Distinct(order) && Members(order) == policies.Keys - rest.Keys
  }

  lemma OrderOne(policies: map<string, Policy>, order: seq<string>, rest: map<string, Policy>, name: string)
    requires Ordered(policies, order, rest) && name in rest
    ensures Ordered(policies, order + [name], rest - {name}) && |rest - {name}| < |rest|
  {
    assert name !in order by { assert name !in Members(order); }
    DistinctAppend(order, name);
    hide Distinct;
    MembersAppend(order, name);
    assert (rest - {name}).Keys == rest.Keys - {name};
    assert |(rest - {name}).Keys| < |rest.Keys|;
  }

  lemma RecompiledNone(policies: map<string, Policy>)
    ensures Recompiled(policies, [], map[]) && Ordered(policies, [], policies)
  {
  }

  lemma RecompiledOne(policies: map<string, Policy>, order: seq<string>, name: string, before: Table, after: Table)
    requires Recompiled(policies, order, before) && name in policies && Compiled(before, policies[name], after)
    ensures Recompiled(policies, order + [name], after)
  {
  }
}
