/** The packet filter's side of micro-segmentation: a flow is looked up in the policy table from the
    most to the least specific key. */
module Verdicts {
  import opened Sequences
  import opened Bits
  import opened Bytes
  import opened Labels
  import opened Microseg

  datatype Flow = Flow(src: u32, dst: u32, proto: byte, port: u16)

  function Code(verdict: Action): byte {
    match verdict case Allow => 0 case Deny => 1 case Log => 2
  }

  /** The rules a flow is looked up under, in order. */
  function Attempts(flow: Flow): seq<Rule> {
    [Rule(flow.proto, flow.port), Rule(flow.proto, 0), Rule(0, 0)]
  }

  function KeyFor(flow: Flow, rule: Rule): Key {
    Key(flow.src, flow.dst, rule.proto, rule.port)
  }

  function Decision(table: Table, defaults: map<u32, byte>, flow: Flow): byte {
    var rules := Attempts(flow);
    if KeyFor(flow, rules[0]) in table then Code(table[KeyFor(flow, rules[0])].verdict)
    else if KeyFor(flow, rules[1]) in table then Code(table[KeyFor(flow, rules[1])].verdict)
    else if KeyFor(flow, rules[2]) in table then Code(table[KeyFor(flow, rules[2])].verdict)
    else Fallback(defaults, flow)
  }

  /** The destination's default, or else deny. */
  function Fallback(defaults: map<u32, byte>, flow: Flow): byte {
    if flow.dst in defaults then defaults[flow.dst] else Code(Deny)
  }

  // ----- What a rule means -----

  /** 0 stands for any protocol and for any port. */
  predicate Matches(rule: Rule, flow: Flow) {
    (rule.proto == 0 || rule.proto == flow.proto) && (rule.port == 0 || rule.port == flow.port)
  }

  /** The live policy `name` has the rule `rule`, and it is about `flow`. */
  ghost predicate Applies(s: State, flow: Flow, name: string, rule: Rule) {
    && name in s.policies && rule in Rules(s.policies[name]) && Matches(rule, flow)
    && flow.src in Identities(s.policies[name].sources) && flow.dst in Identities(s.policies[name].destinations)
  }

  /** A port is more specific than a protocol, and a protocol than neither. */
  function Specificity(rule: Rule): nat {
    if rule.port != 0 then 2 else if rule.proto != 0 then 1 else 0
  }

  /** A rule that the lookup never asks for when the flow has a protocol. */
  predicate Blind(rule: Rule, flow: Flow) {
    rule.proto == 0 && rule.port != 0 && flow.proto != 0
  }

  lemma AttemptsMatch(rule: Rule, flow: Flow)
    ensures rule in Attempts(flow) <==> Matches(rule, flow) && !Blind(rule, flow)
  {
  }

  /** The verdict is that of a live policy through its rule `rule`, and no live policy has a more
      specific rule about the flow, blind ones aside. */
  ghost predicate FromBest(s: State, flow: Flow, verdict: byte, name: string, rule: Rule) {
    && Applies(s, flow, name, rule) && !Blind(rule, flow)
    && verdict == Code(s.policies[name].action)
    && forall other, r :: Applies(s, flow, other, r) && !Blind(r, flow) ==> Specificity(r) <= Specificity(rule)
  }

  lemma KeyApplies(s: State, flow: Flow, rule: Rule, name: string)
    requires rule in Attempts(flow) && name in s.policies
    ensures Generates(s.policies[name], KeyFor(flow, rule)) <==> Applies(s, flow, name, rule)
  {
  }

  lemma KeyInTable(s: State, flow: Flow, rule: Rule)
    requires Exact(s) && rule in Attempts(flow)
    ensures forall name :: Applies(s, flow, name, rule) ==> KeyFor(flow, rule) in s.table
    ensures KeyFor(flow, rule) in s.table ==>
      exists name :: Applies(s, flow, name, rule) && name in s.policies && s.table[KeyFor(flow, rule)].verdict == s.policies[name].action
  {
    hide Generates, Applies;
    var k := KeyFor(flow, rule);
    forall name | Applies(s, flow, name, rule) ensures k in s.table {
      assert name in s.policies by { ApplyingLive(s, flow, name, rule); }
      KeyApplies(s, flow, rule, name);
      assert Live(s.policies, k);
    }
    if k in s.table {
      var name :| name in s.policies && Generates(s.policies[name], k) && EntryOf(s.policies[name]) == s.table[k];
      KeyApplies(s, flow, rule, name);
    }
  }

  lemma ApplyingLive(s: State, flow: Flow, name: string, rule: Rule)
    requires Applies(s, flow, name, rule)
    ensures name in s.policies && Matches(rule, flow)
  {
  }

  /** On an exact table the verdict is that of a live policy with a most specific rule about the flow,
      and the fallback only when there is none. */
  lemma MostSpecificWins(s: State, defaults: map<u32, byte>, flow: Flow)
    requires Exact(s)
    ensures var verdict := Decision(s.table, defaults, flow);
            if exists name, rule :: Applies(s, flow, name, rule) && !Blind(rule, flow)
            then exists name, rule :: FromBest(s, flow, verdict, name, rule)
            else verdict == Fallback(defaults, flow)
  {
    hide Exact, Applies;
    var rules := Attempts(flow);
    KeyInTable(s, flow, rules[0]);
    KeyInTable(s, flow, rules[1]);
    KeyInTable(s, flow, rules[2]);
    forall name, rule | Applies(s, flow, name, rule) && !Blind(rule, flow)
      ensures rule == rules[0] || rule == rules[1] || rule == rules[2]
    {
      ApplyingLive(s, flow, name, rule);
      AttemptsMatch(rule, flow);
    }
    AttemptsMatch(rules[0], flow);
    AttemptsMatch(rules[1], flow);
    AttemptsMatch(rules[2], flow);
    if KeyFor(flow, rules[0]) in s.table {
      Found(s, defaults, flow, 0);
    } else if KeyFor(flow, rules[1]) in s.table {
      Found(s, defaults, flow, 1);
    } else if KeyFor(flow, rules[2]) in s.table {
      Found(s, defaults, flow, 2);
    }
  }

  lemma Found(s: State, defaults: map<u32, byte>, flow: Flow, i: nat)
    requires Exact(s) && i < 3 && KeyFor(flow, Attempts(flow)[i]) in s.table
    requires forall j :: 0 <= j < i ==> KeyFor(flow, Attempts(flow)[j]) !in s.table
    ensures exists name :: FromBest(s, flow, Decision(s.table, defaults, flow), name, Attempts(flow)[i])
  {
    hide Exact, Applies;
    var rules := Attempts(flow);
    KeyInTable(s, flow, rules[i]);
    var name :| Applies(s, flow, name, rules[i]) && name in s.policies && s.table[KeyFor(flow, rules[i])].verdict == s.policies[name].action;
    AttemptsMatch(rules[i], flow);
    forall other, r | Applies(s, flow, other, r) && !Blind(r, flow) ensures Specificity(r) <= Specificity(rules[i]) {
      ApplyingLive(s, flow, other, r);
      AttemptsMatch(r, flow);
      var j :| 0 <= j < |rules| && rules[j] == r;
      KeyInTable(s, flow, r);
    }
    assert FromBest(s, flow, Decision(s.table, defaults, flow), name, rules[i]);
  }

  /** `lookup_verdict`. On an exact table the verdict is that of a live policy with a most specific rule
      about the flow among those the lookup can see, and without such a rule the destination's default
      or else deny. */
  method LookupVerdict(table: Table, defaults: map<u32, byte>, flow: Flow, ghost policies: map<string, Policy>) returns (verdict: byte)
    ensures verdict == Decision(table, defaults, flow)
    ensures var s := State(policies, table);
            Exact(s) ==>
              if exists name, rule :: Applies(s, flow, name, rule) && !Blind(rule, flow)
              then exists name, rule :: FromBest(s, flow, verdict, name, rule)
              else verdict == Fallback(defaults, flow)
  {
    hide Exact, Applies, FromBest, Blind;
    if Exact(State(policies, table)) { MostSpecificWins(State(policies, table), defaults, flow); }
    var k := Key(flow.src, flow.dst, flow.proto, flow.port);
    if k in table { return Code(table[k].verdict); }
    k := k.(port := 0);
    if k in table { return Code(table[k].verdict); }
    k := k.(proto := 0);
    if k in table { return Code(table[k].verdict); }
    if flow.dst in defaults { return defaults[flow.dst]; }
    return 1;
  }

  // ----- Which rules the lookup can miss -----

  /** A flow the filter can meet: only TCP and UDP have ports. */
  predicate Filterable(flow: Flow) {
    flow.port != 0 ==> flow.proto == 6 || flow.proto == 17
  }

  /** The flow without its protocol and port. */
  function Bare(flow: Flow): Flow {
    Flow(flow.src, flow.dst, 0, 0)
  }

  /** Looking up `asked` asks for a rule about the flow that is as specific as `rule`. */
  ghost predicate SeesAsGood(s: State, flow: Flow, asked: Flow, rule: Rule) {
    exists other, r :: Applies(s, flow, other, r) && r in Attempts(asked) && Specificity(rule) <= Specificity(r)
  }

  lemma SeenRule(s: State, flow: Flow, asked: Flow, rule: Rule) returns (name: string, r: Rule)
    requires SeesAsGood(s, flow, asked, rule)
    ensures Applies(s, flow, name, r) && r in Attempts(asked) && Specificity(rule) <= Specificity(r)
  {
    name, r :| Applies(s, flow, name, r) && r in Attempts(asked) && Specificity(rule) <= Specificity(r);
  }

  /** Of the rules about the flow, one that is asked for is as specific as any. */
  ghost predicate SeesBest(s: State, flow: Flow, asked: Flow) {
    forall name, rule :: Applies(s, flow, name, rule) ==> SeesAsGood(s, flow, asked, rule)
  }

  /** The verdict is that of a live policy with a most specific rule about the flow, of all rules, and the
      fallback only when there is none. */
  ghost predicate Meant(s: State, defaults: map<u32, byte>, flow: Flow, verdict: byte) {
    if exists name, rule :: Applies(s, flow, name, rule)
    then exists name, rule :: MeantBy(s, flow, verdict, name, rule)
    else verdict == Fallback(defaults, flow)
  }

  ghost predicate MeantBy(s: State, flow: Flow, verdict: byte, name: string, rule: Rule) {
    && Applies(s, flow, name, rule) && verdict == Code(s.policies[name].action)
    && forall other, r :: Applies(s, flow, other, r) ==> Specificity(r) <= Specificity(rule)
  }

  /** A live policy has a rule about what goes from `src` to `dst`. */
  ghost predicate Between(s: State, name: string, src: u32, dst: u32, rule: Rule) {
    && name in s.policies && rule in Rules(s.policies[name])
    && src in Identities(s.policies[name].sources) && dst in Identities(s.policies[name].destinations)
  }

  ghost predicate SomeBetween(s: State, src: u32, dst: u32, rule: Rule) {
    exists name :: Between(s, name, src, dst, rule)
  }

  /** Wherever a port is ruled on without a protocol, it is ruled on for TCP and for UDP as well. */
  ghost predicate PortsNamed(s: State) {
    forall name, src, dst, port: u16 :: port != 0 && Between(s, name, src, dst, Rule(0, port)) ==>
      SomeBetween(s, src, dst, Rule(6, port)) && SomeBetween(s, src, dst, Rule(17, port))
  }

  lemma AppliesBetween(s: State, flow: Flow, name: string, rule: Rule)
    ensures Applies(s, flow, name, rule) <==> Between(s, name, flow.src, flow.dst, rule) && Matches(rule, flow)
  {
    hide Rules, Identities;
  }

  lemma NamedSees(s: State, flow: Flow, name: string, rule: Rule)
    requires PortsNamed(s) && Filterable(flow) && Applies(s, flow, name, rule)
    ensures SeesAsGood(s, flow, flow, rule)
  {
    AppliesBetween(s, flow, name, rule);
    AttemptsMatch(rule, flow);
    hide Between, Applies;
    if Blind(rule, flow) {
      var best := Rule(flow.proto, flow.port);
      assert Between(s, name, flow.src, flow.dst, Rule(0, flow.port));
      assert SomeBetween(s, flow.src, flow.dst, best);
      var other :| Between(s, other, flow.src, flow.dst, best);
      AppliesBetween(s, flow, other, best);
      assert best == Attempts(flow)[0];
    }
  }

  lemma SeeingNames(s: State, name: string, src: u32, dst: u32, port: u16, proto: byte)
    requires port != 0 && (proto == 6 || proto == 17) && Between(s, name, src, dst, Rule(0, port))
    requires SeesBest(s, Flow(src, dst, proto, port), Flow(src, dst, proto, port))
    ensures SomeBetween(s, src, dst, Rule(proto, port))
  {
    hide Between, Applies, SeesAsGood;
    var flow := Flow(src, dst, proto, port);
    AppliesBetween(s, flow, name, Rule(0, port));
    var other, r := SeenRule(s, flow, flow, Rule(0, port));
    AppliesBetween(s, flow, other, r);
  }

  /** For every flow the filter can meet, a rule that the lookup asks for is as specific as any rule about
      the flow, if and only if wherever a live policy rules on a port without a protocol, live policies rule
      on that port for TCP and for UDP between the same identities. */
  lemma BlindExactly(s: State)
    ensures (forall flow :: Filterable(flow) ==> SeesBest(s, flow, flow)) <==> PortsNamed(s)
  {
    hide Applies, Between, SomeBetween, SeesAsGood;
    if forall flow :: Filterable(flow) ==> SeesBest(s, flow, flow) {
      forall name, src, dst, port: u16 | port != 0 && Between(s, name, src, dst, Rule(0, port))
        ensures SomeBetween(s, src, dst, Rule(6, port)) && SomeBetween(s, src, dst, Rule(17, port))
      {
        assert SeesBest(s, Flow(src, dst, 6, port), Flow(src, dst, 6, port));
        assert SeesBest(s, Flow(src, dst, 17, port), Flow(src, dst, 17, port));
        SeeingNames(s, name, src, dst, port, 6);
        SeeingNames(s, name, src, dst, port, 17);
      }
    }
    if PortsNamed(s) {
      forall flow | Filterable(flow) ensures SeesBest(s, flow, flow) {
        forall name, rule | Applies(s, flow, name, rule)
          ensures SeesAsGood(s, flow, flow, rule)
        {
          NamedSees(s, flow, name, rule);
        }
      }
    }
  }

  // ----- What is looked up without protocol and port -----

  lemma BareAttempts(flow: Flow, rule: Rule)
    ensures rule in Attempts(Bare(flow)) <==> rule == Rule(0, 0)
  {
    assert Attempts(Bare(flow))[2] == Rule(0, 0);
  }

  /** Such a lookup sees a most specific rule about the flow exactly when no rule about it has a protocol or a port. */
  lemma BareExactly(s: State, flow: Flow)
    ensures SeesBest(s, flow, Bare(flow)) <==> forall name, rule :: Applies(s, flow, name, rule) ==> rule == Rule(0, 0)
  {
    hide Applies, Attempts, Bare;
    forall rule ensures rule in Attempts(Bare(flow)) <==> rule == Rule(0, 0) {
      BareAttempts(flow, rule);
    }
  }

  /** A live policy has a rule with a protocol or a port that is about some flow; one with a port and a protocol
      that has none is about nothing. */
  ghost predicate HasNarrowRule(s: State) {
    exists name, src, dst, rule :: Between(s, name, src, dst, rule) && rule != Rule(0, 0) && (rule.port == 0 || rule.proto in {0, 6, 17})
  }

  /** A flow that a rule is about. */
  function FlowFor(src: u32, dst: u32, rule: Rule): Flow {
    Flow(src, dst, if rule.proto == 0 then 6 else rule.proto, rule.port)
  }

  /** It does so for every flow, exactly when no live policy has a rule with a protocol or a port. */
  lemma BareSeesExactly(s: State)
    ensures (forall flow :: Filterable(flow) ==> SeesBest(s, flow, Bare(flow))) <==> !HasNarrowRule(s)
  {
    hide Between, Applies, SeesBest, Bare;
    if HasNarrowRule(s) {
      var name, src, dst, rule :| Between(s, name, src, dst, rule) && rule != Rule(0, 0) && (rule.port == 0 || rule.proto in {0, 6, 17});
      var flow := FlowFor(src, dst, rule);
      AppliesBetween(s, flow, name, rule);
      BareExactly(s, flow);
      assert Filterable(flow) && !SeesBest(s, flow, Bare(flow));
    } else {
      forall flow | Filterable(flow) ensures SeesBest(s, flow, Bare(flow)) {
        forall name, rule | Applies(s, flow, name, rule) ensures rule == Rule(0, 0) {
          AppliesBetween(s, flow, name, rule);
        }
        BareExactly(s, flow);
      }
    }
  }

  // ----- What such lookups decide -----

  /** Looked up as it is or without protocol and port, a flow meets only rules about it. */
  lemma AskedApplies(s: State, flow: Flow, asked: Flow, name: string, rule: Rule)
    requires asked == flow || asked == Bare(flow)
    ensures Applies(s, asked, name, rule) ==> Applies(s, flow, name, rule)
    ensures Applies(s, flow, name, rule) && rule in Attempts(asked) ==> Applies(s, asked, name, rule) && !Blind(rule, asked)
  {
    hide Rules, Identities;
    AttemptsMatch(rule, asked);
  }

  /** Where the lookup sees a most specific rule, the verdict is what the policies mean. */
  lemma SeenDecides(s: State, defaults: map<u32, byte>, flow: Flow, asked: Flow)
    requires Exact(s) && SeesBest(s, flow, asked) && (asked == flow || asked == Bare(flow))
    ensures Meant(s, defaults, flow, Decision(s.table, defaults, asked))
  {
    hide Exact, Applies, Decision, Blind, Attempts, SeesAsGood, MeantBy;
    MostSpecificWins(s, defaults, asked);
    var verdict := Decision(s.table, defaults, asked);
    if some, one :| Applies(s, flow, some, one) {
      var other, r := SeenRule(s, flow, asked, one);
      AskedApplies(s, flow, asked, other, r);
      var name, rule :| FromBest(s, asked, verdict, name, rule);
      BestIsMeant(s, flow, asked, verdict, name, rule);
    } else {
      forall name, rule ensures !Applies(s, asked, name, rule) {
        AskedApplies(s, flow, asked, name, rule);
      }
    }
  }

  lemma BestIsMeant(s: State, flow: Flow, asked: Flow, verdict: byte, name: string, rule: Rule)
    requires SeesBest(s, flow, asked) && (asked == flow || asked == Bare(flow)) && FromBest(s, asked, verdict, name, rule)
    ensures MeantBy(s, flow, verdict, name, rule)
  {
    hide Applies, Blind, Bare, Attempts, SeesAsGood;
    AskedApplies(s, flow, asked, name, rule);
    forall other, r | Applies(s, flow, other, r) ensures Specificity(r) <= Specificity(rule) {
      var seen, best := SeenRule(s, flow, asked, r);
      AskedApplies(s, flow, asked, seen, best);
    }
  }

  /** An allowed port without a protocol: the rule is about every flow to the port, and those that have
      a protocol all get the fallback. */
  lemma PortWithoutProtocol(namespace: string, name: string, labels: LabelSet, port: u16, s: State, t: State,
                            defaults: map<u32, byte>, proto: byte)
    requires s == State(map[], map[]) && port != 0 && proto != 0
    requires Next(s, Added(OneRule(namespace, name, labels, PortRule(None, Some(port)))), t)
    ensures var flow := Flow(Identity(labels), Identity(labels), proto, port);
            && (exists live, rule :: Applies(t, flow, live, rule))
            && Decision(t.table, defaults, flow) == Fallback(defaults, flow)
  {
    var p := OneRule(namespace, name, labels, PortRule(None, Some(port)));
    OneRuleGenerates(namespace, name, labels, PortRule(None, Some(port)));
    OneSelector(labels);
    hide Rules, Identities, Identity, Generates;
    var flow := Flow(Identity(labels), Identity(labels), proto, port);
    assert t.policies[NameOf(p)] == p;
    assert Applies(t, flow, NameOf(p), Rule(0, port));
  }

  /** Along a run of fresh additions and deletions the filter does what the live policies say. */
  lemma FreshRunDecides(states: seq<State>, events: seq<Event>, i: nat, defaults: map<u32, byte>, flow: Flow)
    requires Run(states, events) && states[0] == State(map[], map[]) && i < |states|
    requires forall j :: 0 <= j < |events| ==>
      events[j].Deleted? || (events[j].Added? && NameOf(events[j].policy) !in states[j].policies)
    ensures var verdict := Decision(states[i].table, defaults, flow);
            if exists name, rule :: Applies(states[i], flow, name, rule) && !Blind(rule, flow)
            then exists name, rule :: FromBest(states[i], flow, verdict, name, rule)
            else verdict == Fallback(defaults, flow)
  {
    hide Run, FromBest, Applies, Decision;
    assert Exact(states[0]);
    FreshRunExact(states, events);
    MostSpecificWins(states[i], defaults, flow);
  }

  // ----- Enforcement -----

  type Mac = seq<byte>

  /** What follows the IP header: only TCP and UDP have ports. */
  datatype Transport = Tcp(port: u16) | Udp(port: u16) | Another(proto: Portless)
  type Portless = x: byte | x != 6 && x != 17
  datatype Headers = Ip4(transport: Transport) | Ip6(transport: Transport) | Other
  datatype Packet = Packet(src: Mac, dst: Mac, headers: Headers, length: nat)
  datatype Denied = Denied(packets: nat, bytes: nat)

  /** The maps the filter reads. */
  datatype Maps = Maps(identities: map<Mac, u32>, table: Table, defaults: map<u32, byte>)

  function IdentityAt(maps: Maps, mac: Mac): u32 {
    if mac in maps.identities then maps.identities[mac] else 0
  }

  /** The flow that an IP packet belongs to. */
  function RealFlow(maps: Maps, packet: Packet): Flow
    requires !packet.headers.Other?
  {
    var src, dst := IdentityAt(maps, packet.src), IdentityAt(maps, packet.dst);
    match packet.headers.transport
    case Tcp(port) => Flow(src, dst, 6, port)
    case Udp(port) => Flow(src, dst, 17, port)
    case Another(proto) => Flow(src, dst, proto, 0)
  }

  /** What the filter looks up: it does not read what follows an IPv6 header. */
  function FlowOf(maps: Maps, packet: Packet): Flow
    requires !packet.headers.Other?
  {
    if packet.headers.Ip4? then RealFlow(maps, packet) else Bare(RealFlow(maps, packet))
  }

  /** The flows of packets are the flows with ports for TCP and UDP alone. */
  lemma FlowsOfPackets(maps: Maps, flow: Flow)
    ensures Filterable(flow) && flow.src in maps.identities.Values && flow.dst in maps.identities.Values <==>
      exists packet: Packet :: packet.src in maps.identities && packet.dst in maps.identities
        && packet.headers.Ip4? && FlowOf(maps, packet) == flow
  {
    if Filterable(flow) && flow.src in maps.identities.Values && flow.dst in maps.identities.Values {
      var from :| from in maps.identities && maps.identities[from] == flow.src;
      var to :| to in maps.identities && maps.identities[to] == flow.dst;
      var transport := if flow.proto == 6 then Tcp(flow.port) else if flow.proto == 17 then Udp(flow.port) else Another(flow.proto);
      assert FlowOf(maps, Packet(from, to, Ip4(transport), 0)) == flow;
    }
  }

  // ----- What policies mean for packets -----

  /** What a protocol name in a policy stands for; a name that is not known, and none, stand for every protocol. */
  predicate NameMeans(name: Option<string>, transport: Transport) {
    || name.None?
    || (name.value in {"TCP", "tcp"} && transport.Tcp?)
    || (name.value in {"UDP", "udp"} && transport.Udp?)
    || (name.value in {"ICMP", "icmp"} && transport == Another(1))
    || name.value !in {"TCP", "tcp", "UDP", "udp", "ICMP", "icmp"}
  }

  /** The same for a port, where 0 stands for every port. */
  predicate PortMeans(port: Option<u16>, transport: Transport) {
    || port.None? || port.value == 0
    || (transport.Tcp? && transport.port == port.value)
    || (transport.Udp? && transport.port == port.value)
  }

  /** Some port rule of the policy is about the packet, or it has none. */
  ghost predicate PortsMean(ports: Option<seq<PortRule>>, transport: Transport) {
    || ports.None? || ports.value == []
    || exists i :: 0 <= i < |ports.value| && NameMeans(ports.value[i].protocol, transport) && PortMeans(ports.value[i].port, transport)
  }

  /** The live policy `name` is about what `packet` carries. */
  ghost predicate About(s: State, maps: Maps, packet: Packet, name: string)
    requires !packet.headers.Other?
  {
    && name in s.policies && PortsMean(s.policies[name].ports, packet.headers.transport)
    && IdentityAt(maps, packet.src) in Identities(s.policies[name].sources)
    && IdentityAt(maps, packet.dst) in Identities(s.policies[name].destinations)
  }

  /** A packet from or to a machine without an identity is about no policy. */
  lemma UnknownMachines(s: State, maps: Maps, packet: Packet, name: string)
    requires !packet.headers.Other? && (packet.src !in maps.identities || packet.dst !in maps.identities)
    ensures !About(s, maps, packet, name)
  {
    if name in s.policies {
      KnownIdentities(s.policies[name].sources);
      KnownIdentities(s.policies[name].destinations);
    }
  }

  lemma KnownIdentities(selectors: seq<LabelSet>)
    ensures 0 !in Identities(selectors) && 1 !in Identities(selectors)
  {
    hide Identity;
    forall labels | labels in selectors ensures Identity(labels) != 0 && Identity(labels) != 1 {
      var id := Identity(labels);
      var order :| Enumerates(order, labels) && id == IdentityOf(order);
    }
  }

  lemma NameNumber(name: Option<string>, transport: Transport)
    ensures NameMeans(name, transport) <==>
      ProtoNum(name) == 0 || ProtoNum(name) == match transport case Tcp(_) => 6 case Udp(_) => 17 case Another(proto) => proto
  {
  }

  /** A compiled rule matches a packet's flow exactly when the rule as written is about the packet. */
  lemma RuleMeans(rule: PortRule, maps: Maps, packet: Packet)
    requires !packet.headers.Other?
    ensures Matches(RuleOf(rule), RealFlow(maps, packet)) <==>
      NameMeans(rule.protocol, packet.headers.transport) && PortMeans(rule.port, packet.headers.transport)
  {
    hide ProtoNum, NameMeans;
    NameNumber(rule.protocol, packet.headers.transport);
  }

  /** A live policy has a rule about a packet's flow exactly when the policy as written is about the packet. */
  lemma AboutApplies(s: State, maps: Maps, packet: Packet, name: string)
    requires !packet.headers.Other?
    ensures (exists rule :: Applies(s, RealFlow(maps, packet), name, rule)) <==> About(s, maps, packet, name)
  {
    hide Identities, RealFlow, RuleOf, Matches, NameMeans, PortMeans;
    EverythingMatches(maps, packet);
    var flow := RealFlow(maps, packet);
    SameEnds(maps, packet);
    if name in s.policies {
      var p := s.policies[name];
      if p.ports.None? || p.ports.value == [] {
        assert Rules(p) == [Rule(0, 0)];
        assert Rule(0, 0) in Rules(p);
        assert About(s, maps, packet, name) ==> Applies(s, flow, name, Rule(0, 0));
      } else {
        RulesMean(p, maps, packet);
        if About(s, maps, packet, name) {
          var rule :| rule in Rules(p) && Matches(rule, flow);
          assert Applies(s, flow, name, rule);
        }
      }
    }
  }

  lemma EverythingMatches(maps: Maps, packet: Packet)
    requires !packet.headers.Other?
    ensures Matches(Rule(0, 0), RealFlow(maps, packet))
  {
  }

  lemma SameEnds(maps: Maps, packet: Packet)
    requires !packet.headers.Other?
    ensures RealFlow(maps, packet).src == IdentityAt(maps, packet.src) && RealFlow(maps, packet).dst == IdentityAt(maps, packet.dst)
  {
  }

  lemma RulesMean(p: Policy, maps: Maps, packet: Packet)
    requires !packet.headers.Other? && p.ports.Some? && p.ports.value != []
    ensures (exists rule :: rule in Rules(p) && Matches(rule, RealFlow(maps, packet))) <==> PortsMean(p.ports, packet.headers.transport)
  {
    hide RealFlow, RuleOf, Matches, NameMeans, PortMeans;
    var rules, ports := Rules(p), p.ports.value;
    forall i | 0 <= i < |ports|
      ensures rules[i] == RuleOf(ports[i])
      ensures Matches(rules[i], RealFlow(maps, packet)) <==>
        NameMeans(ports[i].protocol, packet.headers.transport) && PortMeans(ports[i].port, packet.headers.transport)
    {
      RuleMeans(ports[i], maps, packet);
    }
    if PortsMean(p.ports, packet.headers.transport) {
      var i :| 0 <= i < |ports| && NameMeans(ports[i].protocol, packet.headers.transport) && PortMeans(ports[i].port, packet.headers.transport);
      assert rules[i] in rules;
    }
  }

  /** Only IP packets whose flow is denied are dropped. */
  predicate Dropped(maps: Maps, packet: Packet) {
    !packet.headers.Other? && Decision(maps.table, maps.defaults, FlowOf(maps, packet)) == 1
  }

  /** An IPv4 packet gets the verdict the policies mean where ports are ruled on with their protocols, and an
      IPv6 packet where no rule about its flow has a protocol or a port. It is dropped exactly when a policy with a
      most specific rule about it denies, or without a policy about it the default does. */
  lemma PacketsDecided(s: State, maps: Maps, packet: Packet)
    requires Exact(s) && maps.table == s.table && !packet.headers.Other?
    requires packet.headers.Ip4? ==> PortsNamed(s)
    requires packet.headers.Ip6? ==> forall name, rule :: Applies(s, RealFlow(maps, packet), name, rule) ==> rule == Rule(0, 0)
    ensures Meant(s, maps.defaults, RealFlow(maps, packet), Decision(maps.table, maps.defaults, FlowOf(maps, packet)))
    ensures if exists name :: About(s, maps, packet, name)
            then exists name, rule :: DecidedBy(s, maps, packet, name, rule)
            else Dropped(maps, packet) <==>
              IdentityAt(maps, packet.dst) in maps.defaults ==> maps.defaults[IdentityAt(maps, packet.dst)] == 1
  {
    hide Exact, PortsNamed, Applies, Decision, SeesBest, MeantBy, About, DecidedBy, RealFlow;
    var flow := RealFlow(maps, packet);
    BlindExactly(s);
    BareExactly(s, flow);
    assert Filterable(flow) by { RealFilterable(maps, packet); }
    SeenDecides(s, maps.defaults, flow, FlowOf(maps, packet));
    SameEnds(maps, packet);
    var verdict := Decision(maps.table, maps.defaults, FlowOf(maps, packet));
    if live :| About(s, maps, packet, live) {
      AboutApplies(s, maps, packet, live);
      var name, rule :| MeantBy(s, flow, verdict, name, rule);
      MeantDecides(s, maps, packet, verdict, name, rule);
    } else {
      forall name, rule ensures !Applies(s, flow, name, rule) {
        AboutApplies(s, maps, packet, name);
      }
    }
  }

  lemma RealFilterable(maps: Maps, packet: Packet)
    requires !packet.headers.Other?
    ensures Filterable(RealFlow(maps, packet))
  {
  }

  /** The policy `name` is about the packet, has a rule about it that is as specific as any live rule about it, and says
      whether it is dropped. */
  ghost predicate DecidedBy(s: State, maps: Maps, packet: Packet, name: string, rule: Rule)
    requires !packet.headers.Other?
  {
    && About(s, maps, packet, name) && Applies(s, RealFlow(maps, packet), name, rule)
    && (Dropped(maps, packet) <==> s.policies[name].action == Deny)
    && forall other, r :: Applies(s, RealFlow(maps, packet), other, r) ==> Specificity(r) <= Specificity(rule)
  }

  lemma MeantDecides(s: State, maps: Maps, packet: Packet, verdict: byte, name: string, rule: Rule)
    requires !packet.headers.Other? && MeantBy(s, RealFlow(maps, packet), verdict, name, rule)
    requires verdict == Decision(maps.table, maps.defaults, FlowOf(maps, packet))
    ensures DecidedBy(s, maps, packet, name, rule)
  {
    hide Decision, RealFlow, Specificity, About;
    AboutApplies(s, maps, packet, name);
  }

  /** Packets and bytes dropped from senders with the identity `src`. */
  function DroppedFrom(maps: Maps, packets: seq<Packet>, src: u32): Denied {
    if packets == [] then Denied(0, 0)
    else
      var before, last := DroppedFrom(maps, packets[..|packets| - 1], src), packets[|packets| - 1];
      if Dropped(maps, last) && IdentityAt(maps, last.src) == src
      then Denied(before.packets + 1, before.bytes + last.length)
      else before
  }

  /** Counters are 64 bits wide. */
  function Counted(start: Denied, more: Denied): (sum: Denied)
    ensures sum.packets < W && sum.bytes < W
  {
    Denied((start.packets + more.packets) % W, (start.bytes + more.bytes) % W)
  }

  class Filter {
    var stats: map<u32, Denied>

    ghost predicate Valid()
      reads this
    {
      forall src :: src in stats ==> stats[src].packets < W && stats[src].bytes < W
    }

    method Enforce(maps: Maps, packet: Packet) returns (dropped: bool)
      requires Valid()
      modifies this
      ensures Valid() && dropped == Dropped(maps, packet) && stats.Keys == old(stats).Keys
      ensures forall src :: src in stats ==>
        stats[src] == Counted(old(stats)[src], DroppedFrom(maps, [packet], src))
    {
      hide Decision, Counted, DroppedFrom;
      OneDropped(maps, packet);
      NothingCounted(stats);
      if packet.headers.Other? { return false; }
      var src := IdentityAt(maps, packet.src);
      var flow := FlowOf(maps, packet);
      var verdict := LookupVerdict(maps.table, maps.defaults, flow, map[]);
      dropped := verdict == 1;
      if dropped && src in stats {
        stats := stats[src := Counted(stats[src], Denied(1, packet.length))];
      }
    }

    /** Over any sequence of packets each counter grows by exactly what was dropped, modulo 2^64. */
    method EnforceAll(maps: Maps, packets: seq<Packet>) returns (dropped: seq<bool>)
      requires Valid()
      modifies this
      ensures Valid() && stats.Keys == old(stats).Keys
      ensures |dropped| == |packets| && forall i :: 0 <= i < |packets| ==> dropped[i] == Dropped(maps, packets[i])
      ensures forall src :: src in stats ==>
        stats[src] == Counted(old(stats)[src], DroppedFrom(maps, packets, src))
    {
      hide Dropped, Counted, DroppedFrom;
      dropped := [];
      CountedNone(maps, stats);
      for i := 0 to |packets|
        invariant Valid() && stats.Keys == old(stats).Keys
        invariant |dropped| == i && forall j :: 0 <= j < i ==> dropped[j] == Dropped(maps, packets[j])
        invariant forall src :: src in stats ==> stats[src] == Counted(old(stats)[src], DroppedFrom(maps, packets[..i], src))
      {
        var d := Enforce(maps, packets[i]);
        dropped := dropped + [d];
        forall src | src in stats
          ensures stats[src] == Counted(old(stats)[src], DroppedFrom(maps, packets[..i + 1], src))
        {
          CountedMore(maps, packets, i, src, old(stats)[src]);
        }
      }
      assert packets[..|packets|] == packets;
    }
  }

  lemma OneDropped(maps: Maps, packet: Packet)
    ensures forall src ::
      DroppedFrom(maps, [packet], src) ==
        if Dropped(maps, packet) && IdentityAt(maps, packet.src) == src then Denied(1, packet.length) else Denied(0, 0)
  {
  }

  lemma NothingCounted(stats: map<u32, Denied>)
    requires forall src :: src in stats ==> stats[src].packets < W && stats[src].bytes < W
    ensures forall src :: src in stats ==> stats[src] == Counted(stats[src], Denied(0, 0))
  {
  }

  lemma CountedNone(maps: Maps, stats: map<u32, Denied>)
    requires forall src :: src in stats ==> stats[src].packets < W && stats[src].bytes < W
    ensures forall src :: src in stats ==> stats[src] == Counted(stats[src], DroppedFrom(maps, [], src))
  {
  }

  lemma CountedMore(maps: Maps, packets: seq<Packet>, i: nat, src: u32, start: Denied)
    requires i < |packets|
    ensures Counted(Counted(start, DroppedFrom(maps, packets[..i], src)), DroppedFrom(maps, [packets[i]], src))
         == Counted(start, DroppedFrom(maps, packets[..i + 1], src))
  {
    OneDropped(maps, packets[i]);
    assert packets[..i + 1][..i] == packets[..i];
    hide Dropped;
    var a := DroppedFrom(maps, packets[..i], src);
    AddModulo(start.packets + a.packets, 1);
    AddModulo(start.bytes + a.bytes, packets[i].length);
    AddModulo(start.packets + a.packets, 0);
    AddModulo(start.bytes + a.bytes, 0);
  }

  lemma AddModulo(a: nat, b: nat)
    ensures (a % W + b) % W == (a + b) % W
  {
  }
}
