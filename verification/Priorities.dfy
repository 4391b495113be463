/** What the priority of a policy is worth: it is stored in every entry and never compared, so of the
    policies that generate a key the one compiled last decides. */
module Priorities {
  import opened Sequences
  import opened Bytes
  import opened Labels
  import opened Microseg
  import opened Verdicts

  /** `name` is live, generates `k`, and no live policy that does has a better priority; a lower number is
      a better priority. */
  ghost predicate Best(policies: map<string, Policy>, k: Key, name: string) {
    && name in policies && Generates(policies[name], k)
    && forall other :: other in policies && Generates(policies[other], k) ==> policies[name].priority <= policies[other].priority
  }

  /** The entry for `k`, if any, has the action of a live policy of the best priority. */
  ghost predicate ByPriority(s: State, k: Key) {
    k in s.table ==> exists name :: Best(s.policies, k, name) && s.table[k].verdict == s.policies[name].action
  }

  /** Every live policy that generates `k` has the action of one of the best priority. */
  ghost predicate Agreed(policies: map<string, Policy>, k: Key) {
    forall name :: name in policies && Generates(policies[name], k) ==>
      exists best :: Best(policies, k, best) && policies[best].action == policies[name].action
  }

  // ----- Every policy can be the last one -----

  ghost function KeysOf(p: Policy): set<Key> {
    set src, dst, rule | src in Identities(p.sources) && dst in Identities(p.destinations) && rule in Rules(p) ::
      Key(src, dst, rule.proto, rule.port)
  }

  lemma KeysOfExact(p: Policy, k: Key)
    ensures k in KeysOf(p) <==> Generates(p, k)
  {
    hide Identities, Rules;
    if Generates(p, k) {
      assert Key(k.src, k.dst, Rule(k.proto, k.port).proto, Rule(k.proto, k.port).port) == k;
    }
  }

  lemma CompileExists(before: Table, p: Policy) returns (after: Table)
    ensures Compiled(before, p, after)
  {
    hide Generates, KeysOf;
    after := map k | k in before.Keys + KeysOf(p) :: if k in KeysOf(p) then EntryOf(p) else before[k];
    forall k ensures k in KeysOf(p) <==> Generates(p, k) {
      KeysOfExact(p, k);
    }
  }

  lemma {:induction false} RecompileExists(policies: map<string, Policy>, order: seq<string>) returns (table: Table)
    requires forall i :: 0 <= i < |order| ==> order[i] in policies
    ensures Recompiled(policies, order, table)
    decreases |order|
  {
    hide Compiled;
    if order == [] {
      table := map[];
    } else {
      var rest, last := order[..|order| - 1], order[|order| - 1];
      var before := RecompileExists(policies, rest);
      table := CompileExists(before, policies[last]);
    }
  }

  lemma {:induction false} OrderExists(names: set<string>) returns (order: seq<string>)
    ensures Distinct(order) && Members(order) == names
  {
    if names == {} {
      order := [];
    } else {
      var name :| name in names;
      var rest := OrderExists(names - {name});
      assert name !in rest by { assert name !in Members(rest); }
      DistinctAppend(rest, name);
      MembersAppend(rest, name);
      order := rest + [name];
    }
  }

  /** A deletion may recompile in an order that ends with any policy that is left. */
  lemma LastDecides(s: State, deleted: string, k: Key, name: string) returns (t: State)
    requires name in s.policies - {deleted} && Generates((s.policies - {deleted})[name], k)
    ensures Next(s, Deleted(deleted), t) && k in t.table && t.table[k] == EntryOf(t.policies[name])
  {
    hide Generates, Distinct;
    var policies := s.policies - {deleted};
    var rest := OrderExists(policies.Keys - {name});
    assert name !in rest by { assert name !in Members(rest); }
    DistinctAppend(rest, name);
    MembersAppend(rest, name);
    forall i | 0 <= i < |rest| ensures rest[i] in policies {
      assert rest[i] in Members(rest);
    }
    var before := RecompileExists(policies, rest);
    var table := CompileExists(before, policies[name]);
    RecompiledOne(policies, rest, name, before, table);
    t := State(policies, table);
    assert Members(rest + [name]) == policies.Keys;
  }

  // ----- When priorities decide -----

  /** After a deletion the entry for a key has the action of a best-priority policy, in whatever order the
      rest is recompiled, if and only if every policy left that generates the key has the action of one of
      the best priority. */
  lemma PriorityExactly(s: State, deleted: string, k: Key)
    ensures (forall t :: Next(s, Deleted(deleted), t) ==> ByPriority(t, k)) <==> Agreed(s.policies - {deleted}, k)
  {
    hide Generates, Recompiled;
    var policies := s.policies - {deleted};
    if Agreed(policies, k) {
      forall t | Next(s, Deleted(deleted), t) ensures ByPriority(t, k) {
        DeletingMakesExact(s, deleted, t);
        assert k in t.table ==> Backed(policies, k, t.table[k]);
      }
    }
    if forall t :: Next(s, Deleted(deleted), t) ==> ByPriority(t, k) {
      forall name | name in policies && Generates(policies[name], k)
        ensures exists best :: Best(policies, k, best) && policies[best].action == policies[name].action
      {
        var t := LastDecides(s, deleted, k, name);
        assert ByPriority(t, k);
      }
    }
  }

  // ----- Runs of fresh additions and deletions -----

  /** From nothing, adding policies under fresh names and deleting policies leads to `last`. */
  ghost predicate FreshRun(states: seq<State>, events: seq<Event>, last: State) {
    && Run(states, events) && states[0] == State(map[], map[]) && states[|events|] == last
    && forall i :: 0 <= i < |events| ==>
         events[i].Deleted? || (events[i].Added? && NameOf(events[i].policy) !in states[i].policies)
  }

  ghost predicate Reached(last: State) {
    exists states, events :: FreshRun(states, events, last)
  }

  ghost predicate WellNamed(policies: map<string, Policy>) {
    forall name :: name in policies ==> NameOf(policies[name]) == name
  }

  lemma ReachedAdding(s: State, p: Policy, t: State)
    requires Reached(s) && NameOf(p) !in s.policies && Next(s, Added(p), t)
    ensures Reached(t)
  {
    hide Next;
    var states, events :| FreshRun(states, events, s);
    var states', events' := states + [t], events + [Added(p)];
    forall i | 0 <= i < |events'| ensures Next(states'[i], events'[i], states'[i + 1]) {
      assert i < |events| ==> Next(states[i], events[i], states[i + 1]);
    }
    assert FreshRun(states', events', t);
  }

  lemma ReachedEmpty()
    ensures Reached(State(map[], map[]))
  {
    assert FreshRun([State(map[], map[])], [], State(map[], map[]));
  }

  /** Every set of policies under their own names can be added one by one. */
  lemma {:induction false} AddedAll(policies: map<string, Policy>) returns (s: State)
    requires WellNamed(policies)
    ensures Reached(s) && s.policies == policies
    decreases |policies|
  {
    hide Reached, Compiled, NameOf;
    if policies == map[] {
      ReachedEmpty();
      s := State(map[], map[]);
    } else {
      var name := Pick(policies.Keys);
      s := AddedLast(policies, name);
    }
  }

  /** Any of them last. */
  lemma {:induction false} AddedLast(policies: map<string, Policy>, name: string) returns (t: State)
    requires WellNamed(policies) && name in policies
    ensures Reached(t) && t.policies == policies
    ensures forall k :: Generates(policies[name], k) ==> k in t.table && t.table[k] == EntryOf(policies[name])
    decreases |policies|, 0
  {
    hide Reached, NameOf, Generates;
    var rest := policies - {name};
    assert rest.Keys == policies.Keys - {name} && |rest.Keys| < |policies.Keys|;
    assert |rest| < |policies|;
    var s := AddedAll(rest);
    var table := CompileExists(s.table, policies[name]);
    t := State(s.policies[name := policies[name]], table);
    assert t.policies == policies;
    ReachedAdding(s, policies[name], t);
  }

  /** Over every run of fresh additions and deletions that ends with the policies given, the entry for a key
      has the action of a best-priority policy, if and only if every policy that generates the key has the
      action of one of the best priority. */
  lemma RunPriorityExactly(policies: map<string, Policy>, k: Key)
    requires WellNamed(policies)
    ensures (forall t :: Reached(t) && t.policies == policies ==> ByPriority(t, k)) <==> Agreed(policies, k)
  {
    hide Generates, NameOf, WellNamed;
    if Agreed(policies, k) {
      forall t | Reached(t) && t.policies == policies ensures ByPriority(t, k) {
        ReachedExact(t);
        assert k in t.table ==> Backed(policies, k, t.table[k]);
      }
    }
    if forall t :: Reached(t) && t.policies == policies ==> ByPriority(t, k) {
      forall name | name in policies && Generates(policies[name], k)
        ensures exists best :: Best(policies, k, best) && policies[best].action == policies[name].action
      {
        var t := AddedLast(policies, name);
        assert ByPriority(t, k);
      }
    }
  }

  lemma ReachedExact(t: State)
    requires Reached(t)
    ensures Exact(t)
  {
    hide Next, Generates;
    var states, events :| FreshRun(states, events, t);
    FreshRunExact(states, events);
  }

  /** A policy about everything between the holders of one label set. */
  function Everything(namespace: string, name: string, labels: LabelSet, priority: byte, action: Action): Policy {
    Policy(namespace, name, priority, action, [labels], [labels], None)
  }

  /** Priority 1 denies and priority 200, added later, allows the same flows: they are allowed. */
  lemma WorsePriorityDecides(namespace: string, labels: LabelSet, s: State, t: State, defaults: map<u32, byte>, proto: byte, port: u16)
    requires Next(State(map[], map[]), Added(Everything(namespace, "a", labels, 1, Deny)), s)
    requires Next(s, Added(Everything(namespace, "b", labels, 200, Allow)), t)
    ensures var flow := Flow(Identity(labels), Identity(labels), proto, port);
            var p, q := Everything(namespace, "a", labels, 1, Deny), Everything(namespace, "b", labels, 200, Allow);
            && t.policies == map[NameOf(p) := p, NameOf(q) := q] && NameOf(p) != NameOf(q)
            && Applies(t, flow, NameOf(p), Rule(0, 0)) && Applies(t, flow, NameOf(q), Rule(0, 0))
            && Decision(t.table, defaults, flow) == Code(Allow)
            && !ByPriority(t, KeyFor(flow, Rule(0, 0)))
  {
    var p, q := Everything(namespace, "a", labels, 1, Deny), Everything(namespace, "b", labels, 200, Allow);
    hide Identities, Identity, Rules, Generates, NameOf, Applies, Decision, ByPriority;
    DifferentNames(namespace);
    EverythingApplies(t, NameOf(p), labels, proto, port);
    EverythingApplies(t, NameOf(q), labels, proto, port);
    EverythingGenerates(namespace, "a", labels, 1, Deny);
    EverythingGenerates(namespace, "b", labels, 200, Allow);
    var key := Key(Identity(labels), Identity(labels), 0, 0);
    assert s.table.Keys == {key} == t.table.Keys && t.table[key] == EntryOf(q);
    OnlyKey(t, key, defaults, Flow(Identity(labels), Identity(labels), proto, port));
    LosesPriority(t, key, NameOf(p), NameOf(q));
  }

  lemma OnlyKey(t: State, key: Key, defaults: map<u32, byte>, flow: Flow)
    requires t.table.Keys == {key} && key == KeyFor(flow, Rule(0, 0))
    ensures Decision(t.table, defaults, flow) == Code(t.table[key].verdict)
  {
  }

  /** The entry has the action of `worse`, which no live policy of the best priority has. */
  lemma LosesPriority(t: State, key: Key, better: string, worse: string)
    requires better in t.policies && worse in t.policies && t.policies.Keys == {better, worse}
    requires Generates(t.policies[better], key) && t.policies[better].priority < t.policies[worse].priority
    requires key in t.table && t.table[key].verdict == t.policies[worse].action != t.policies[better].action
    ensures !ByPriority(t, key)
  {
    hide Generates;
    assert !Best(t.policies, key, worse);
  }

  lemma EverythingApplies(t: State, name: string, labels: LabelSet, proto: byte, port: u16)
    ensures name in t.policies && t.policies[name].sources == t.policies[name].destinations == [labels] && t.policies[name].ports.None?
      ==> Applies(t, Flow(Identity(labels), Identity(labels), proto, port), name, Rule(0, 0))
  {
    OneSelector(labels);
    hide Identities, Identity;
  }

  lemma DifferentNames(namespace: string)
    ensures namespace + "/" + "a" != namespace + "/" + "b"
  {
    assert (namespace + "/" + "a")[|namespace| + 1] == 'a' && (namespace + "/" + "b")[|namespace| + 1] == 'b';
  }

  lemma EverythingGenerates(namespace: string, name: string, labels: LabelSet, priority: byte, action: Action)
    ensures var p := Everything(namespace, name, labels, priority, action);
            && Rules(p) == [Rule(0, 0)]
            && forall k :: Generates(p, k) <==> k == Key(Identity(labels), Identity(labels), 0, 0)
  {
    OneSelector(labels);
    hide Identities, Identity;
  }
}
