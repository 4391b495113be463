/** The migration planner of the resource scheduler: candidates from a triple loop, then sorting,
    one migration per machine, and at most five in all. The metrics are finite numbers; what the code
    computes from them need not be, since a node may report no cores. */
module Drs {
  import opened Sequences
  import opened Floats

  datatype Vm = Vm(id: nat, name: string, cpuUsage: real, memMib: nat)

  datatype Node = Node(hostname: string, cpuCores: nat, cpuUsage: real, memTotal: nat, memUsed: nat, memFree: nat,
                       diskIops: real, netMbps: real, vms: seq<Vm>, load: real)

  datatype Weights = Weights(cpu: real, memory: real, storage: real, network: real)

  datatype Kind = Affinity | AntiAffinity
  datatype Scope = Hard | Soft
  datatype AffinityRule = AffinityRule(kind: Kind, scope: Scope, vmIds: seq<nat>)

  /** What a planning round works with; the square root is any function. */
  datatype Context = Context(nodes: seq<Node>, weights: Weights, minScore: real, rules: seq<AffinityRule>, sqrt: real -> real)

  datatype Candidate = Candidate(vmId: nat, vmName: string, source: string, target: string, score: real, blackoutMs: nat)

  // ----- Affinity -----

  function Find(nodes: seq<Node>, hostname: string): (i: nat)
    ensures i <= |nodes| && (i < |nodes| ==> nodes[i].hostname == hostname)
    ensures forall j :: 0 <= j < i ==> nodes[j].hostname != hostname
  {
    if nodes == [] then 0
    else if nodes[0].hostname == hostname then 0
    else Find(nodes[1..], hostname) + 1
  }

  predicate OnNode(nodes: seq<Node>, id: nat, hostname: string) {
    var i := Find(nodes, hostname);
    i < |nodes| && exists j :: 0 <= j < |nodes[i].vms| && nodes[i].vms[j].id == id
  }

  /** Where host names are unique, that is: some node of the name runs the machine. */
  lemma OnNodeMeans(nodes: seq<Node>, id: nat, hostname: string)
    requires forall i, j :: 0 <= i < j < |nodes| ==> nodes[i].hostname != nodes[j].hostname
    ensures OnNode(nodes, id, hostname) <==> exists n, vm :: n in nodes && n.hostname == hostname && vm in n.vms && vm.id == id
  {
    var i := Find(nodes, hostname);
    if OnNode(nodes, id, hostname) {
      var j :| 0 <= j < |nodes[i].vms| && nodes[i].vms[j].id == id;
      assert nodes[i] in nodes && nodes[i].vms[j] in nodes[i].vms;
    }
    if n, vm :| n in nodes && n.hostname == hostname && vm in n.vms && vm.id == id {
      var k :| 0 <= k < |nodes| && nodes[k] == n;
      assert k == i;
      var j :| 0 <= j < |n.vms| && n.vms[j] == vm;
      assert nodes[i].vms[j].id == id;
    }
  }

  /** Another machine of the rule runs on the target. */
  predicate Companion(nodes: seq<Node>, rule: AffinityRule, id: nat, target: string) {
    exists k :: 0 <= k < |rule.vmIds| && rule.vmIds[k] != id && OnNode(nodes, rule.vmIds[k], target)
  }

  /** What a hard rule about the machine demands of the target. */
  predicate Permits(nodes: seq<Node>, rule: AffinityRule, id: nat, target: string) {
    id in rule.vmIds && rule.scope == Hard ==>
      (Companion(nodes, rule, id, target) <==> rule.kind == Affinity)
  }

  method MigrationAllowed(rules: seq<AffinityRule>, id: nat, target: string, nodes: seq<Node>) returns (allowed: bool)
    ensures allowed <==> forall i :: 0 <= i < |rules| ==> Permits(nodes, rules[i], id, target)
  {
    hide OnNode;
    for i := 0 to |rules|
      invariant forall j :: 0 <= j < i ==> Permits(nodes, rules[j], id, target)
    {
      var rule := rules[i];
      if id !in rule.vmIds { continue; }
      if rule.kind == AntiAffinity && rule.scope == Hard {
        for k := 0 to |rule.vmIds|
          invariant forall m :: 0 <= m < k && rule.vmIds[m] != id ==> !OnNode(nodes, rule.vmIds[m], target)
        {
          if rule.vmIds[k] == id { continue; }
          if OnNode(nodes, rule.vmIds[k], target) {
            assert !Permits(nodes, rules[i], id, target);
            return false;
          }
        }
      } else if rule.kind == Affinity && rule.scope == Hard {
        if !Companion(nodes, rule, id, target) && rule.vmIds != [] {
          assert !Permits(nodes, rules[i], id, target);
          return false;
        }
      }
    }
    return true;
  }

  /** A hard affinity rule whose only member is the machine itself keeps it where it is for ever. */
  lemma LoneAffinityForbids(nodes: seq<Node>, id: nat, target: string)
    ensures !Permits(nodes, AffinityRule(Affinity, Hard, [id]), id, target)
  {
  }

  // ----- Load and its deviation -----

  function Least(a: real, b: real): real {
    if a < b then a else b
  }

  /** A node in the simulation. */
  datatype Shifted = Shifted(node: Node, cpuUsage: Float, memUsed: nat, load: Float)

  function Unshifted(n: Node): Shifted {
    Shifted(n, Finite(n.cpuUsage), n.memUsed, Finite(n.load))
  }

  function Reload(s: Shifted, w: Weights): Shifted {
    var others :=
      Least(s.memUsed as real / (if s.node.memTotal > 0 then s.node.memTotal else 1) as real, 1.0) * w.memory
      + Least(s.node.diskIops / 100000.0, 1.0) * w.storage
      + Least(s.node.netMbps / 40000.0, 1.0) * w.network;
    s.(load := Add(Scale(MinOne(Div(s.cpuUsage, 100.0)), w.cpu), Finite(others)))
  }

  function Relieved(s: Shifted, vm: Vm, w: Weights): Shifted {
    Reload(s.(cpuUsage := Sub(s.cpuUsage, Quotient(vm.cpuUsage, s.node.cpuCores)),
              memUsed := s.memUsed - if vm.memMib < s.memUsed then vm.memMib else s.memUsed), w)
  }

  function Burdened(s: Shifted, vm: Vm, w: Weights): Shifted {
    Reload(s.(cpuUsage := Add(s.cpuUsage, Quotient(vm.cpuUsage, s.node.cpuCores)), memUsed := s.memUsed + vm.memMib), w)
  }

  ghost function Loads(nodes: seq<Node>): seq<Float> {
    seq(|nodes|, k requires 0 <= k < |nodes| => Finite(nodes[k].load))
  }

  /** The loads with `vm` moved: those of the two nodes concerned change, no other does. */
  ghost function LoadsAfter(nodes: seq<Node>, vm: Vm, source: string, target: string, w: Weights): seq<Float> {
    var i, j := Find(nodes, source), Find(nodes, target);
    seq(|nodes|, k requires 0 <= k < |nodes| =>
      var s := if k == i then Relieved(Unshifted(nodes[k]), vm, w) else Unshifted(nodes[k]);
      (if k == j then Burdened(s, vm, w) else s).load)
  }

  /** The deviation after a migration, computed on a copy of the nodes. */
  method SimulateMigration(nodes: seq<Node>, vm: Vm, source: string, target: string, w: Weights, sqrt: real -> real)
    returns (sigma: Float)
    ensures sigma == Sigma(LoadsAfter(nodes, vm, source, target, w), sqrt)
  {
    hide Find, Relieved, Burdened, Sigma;
    var copy := seq(|nodes|, k requires 0 <= k < |nodes| => Unshifted(nodes[k]));
    var i := Find(nodes, source);
    if i < |copy| {
      copy := copy[i := Relieved(copy[i], vm, w)];
    }
    var j := Find(nodes, target);
    if j < |copy| {
      copy := copy[j := Burdened(copy[j], vm, w)];
    }
    var loads := seq(|copy|, k requires 0 <= k < |copy| => copy[k].load);
    assert loads == LoadsAfter(nodes, vm, source, target, w);
    sigma := StandardDeviation(loads, sqrt);
  }

  /** `balance_score` of the snapshot is a number. */
  ghost function Baseline(ctx: Context): real {
    if |ctx.nodes| < 2 then 0.0
    else
      AllLoadsFinite(ctx.nodes);
      ctx.sqrt(Variance(Values(Loads(ctx.nodes))))
  }

  lemma AllLoadsFinite(nodes: seq<Node>)
    ensures AllFinite(Loads(nodes)) && |Loads(nodes)| == |nodes|
  {
  }

  method BalanceScore(ctx: Context) returns (sigma: real)
    ensures sigma == Baseline(ctx)
  {
    AllLoadsFinite(ctx.nodes);
    var loads := seq(|ctx.nodes|, k requires 0 <= k < |ctx.nodes| => Finite(ctx.nodes[k].load));
    assert loads == Loads(ctx.nodes);
    var deviation := StandardDeviation(loads, ctx.sqrt);
    sigma := deviation.value;
  }

  // ----- Candidates -----

  /** Memory with a tenth to spare, and processor time with ten percent to spare; a comparison with
      not-a-number, for an idle machine and a node without cores, does not refuse. */
  predicate Fits(vm: Vm, n: Node) {
    && vm.memMib <= (if n.memFree >= n.memTotal / 10 then n.memFree - n.memTotal / 10 else 0)
    && !Greater(Quotient(vm.cpuUsage, n.cpuCores), (100.0 - n.cpuUsage) - 10.0)
  }

  function Cost(vm: Vm): (cost: real)
    ensures cost >= 1.0
  {
    1.0 + (vm.memMib as real / 1024.0) * 0.05
  }

  function BlackoutMs(memMib: nat): nat {
    50 + memMib % 0x1_0000_0000 / 512
  }

  ghost function SigmaAfter(ctx: Context, vm: Vm, source: string, target: string): Float {
    Sigma(LoadsAfter(ctx.nodes, vm, source, target, ctx.weights), ctx.sqrt)
  }

  ghost function Score(ctx: Context, src: Node, vm: Vm, dst: Node): Float {
    Div(Sub(Finite(Baseline(ctx)), SigmaAfter(ctx, vm, src.hostname, dst.hostname)), Cost(vm))
  }

  /** Why a migration may be proposed: in particular the deviation after it is a number, and smaller. */
  ghost predicate Worthwhile(ctx: Context, src: Node, vm: Vm, dst: Node) {
    && dst.hostname != src.hostname
    && (forall i :: 0 <= i < |ctx.rules| ==> Permits(ctx.nodes, ctx.rules[i], vm.id, dst.hostname))
    && Fits(vm, dst)
    && SigmaAfter(ctx, vm, src.hostname, dst.hostname).Finite?
    && SigmaAfter(ctx, vm, src.hostname, dst.hostname).value < Baseline(ctx)
    && Score(ctx, src, vm, dst).value >= ctx.minScore
  }

  /** In particular the machine's memory is no more than what the target has free less a tenth of its total, its share of
      the target's processors leaves ten percent, and the score is the fall of the deviation divided by one more than
      the machine's memory in units of 20 GiB. */
  lemma WorthwhileMeans(ctx: Context, src: Node, vm: Vm, dst: Node)
    requires Worthwhile(ctx, src, vm, dst)
    ensures vm.memMib == 0 || vm.memMib + dst.memTotal / 10 <= dst.memFree
    ensures if dst.cpuCores > 0 then dst.cpuUsage + vm.cpuUsage / dst.cpuCores as real <= 90.0 else vm.cpuUsage <= 0.0
    ensures var after := SigmaAfter(ctx, vm, src.hostname, dst.hostname).value;
            Score(ctx, src, vm, dst).value * (vm.memMib as real / 20480.0 + 1.0) == Baseline(ctx) - after > 0.0
  {
    hide Permits, LoadsAfter, Sigma, Baseline;
    var gain, cost := Baseline(ctx) - SigmaAfter(ctx, vm, src.hostname, dst.hostname).value, Cost(vm);
    assert cost == vm.memMib as real / 20480.0 + 1.0;
    assert Score(ctx, src, vm, dst) == Finite(gain / cost);
    Divides(gain, cost);
  }

  lemma Divides(a: real, d: real)
    requires d > 0.0
    ensures a / d * d == a
  {
  }

  // ----- What a load is -----

  /** A busy node: processors at 100 percent, all memory used, 100000 disk operations and 40000 megabits a second. */
  predicate AtCapacity(s: Shifted) {
    && s.cpuUsage.Finite? && s.cpuUsage.value >= 100.0 && s.memUsed >= s.node.memTotal > 0
    && s.node.diskIops >= 100000.0 && s.node.netMbps >= 40000.0
  }

  /** What `x` of `top` adds to a load. */
  function Part(x: real, top: real, w: real): real
    requires top > 0.0
  {
    Least(x / top, 1.0) * w
  }

  lemma Capped(x: real, top: real, w: real)
    requires top > 0.0 && w > 0.0
    ensures Part(x, top, w) <= w && (Part(x, top, w) == w <==> x >= top)
  {
    Divides(x, top);
    Compares(x / top, top);
    Compares(Least(x / top, 1.0), w);
  }

  lemma Compares(q: real, d: real)
    requires d > 0.0
    ensures q * d < d <==> q < 1.0
    ensures q == 1.0 ==> q * d == d
  {
  }

  /** A load is at most the sum of the weights, and that much exactly at capacity. */
  lemma LoadFull(s: Shifted, w: Weights)
    requires s.cpuUsage.Finite? && s.node.memTotal > 0
    requires w.cpu > 0.0 && w.memory > 0.0 && w.storage > 0.0 && w.network > 0.0
    ensures var load := Reload(s, w).load;
            && load.Finite? && load.value <= w.cpu + w.memory + w.storage + w.network
            && (load.value == w.cpu + w.memory + w.storage + w.network <==> AtCapacity(s))
  {
    hide Part, Reload;
    Capped(s.cpuUsage.value, 100.0, w.cpu);
    Capped(s.memUsed as real, s.node.memTotal as real, w.memory);
    Capped(s.node.diskIops, 100000.0, w.storage);
    Capped(s.node.netMbps, 40000.0, w.network);
    LoadParts(s, w);
  }

  lemma LoadParts(s: Shifted, w: Weights)
    requires s.cpuUsage.Finite? && s.node.memTotal > 0
    ensures Reload(s, w).load == Finite(
      Part(s.cpuUsage.value, 100.0, w.cpu) + Part(s.memUsed as real, s.node.memTotal as real, w.memory)
      + Part(s.node.diskIops, 100000.0, w.storage) + Part(s.node.netMbps, 40000.0, w.network))
  {
  }

  /** A simulated move takes the machine's memory and processor time off one node and puts them on the other: with usage
      counted in percent of a core, nothing is gained or lost. */
  lemma MoveConserves(src: Shifted, dst: Shifted, vm: Vm, w: Weights)
    requires src.cpuUsage.Finite? && dst.cpuUsage.Finite? && src.node.cpuCores > 0 && dst.node.cpuCores > 0
    requires vm.memMib <= src.memUsed
    ensures var left, right := Relieved(src, vm, w), Burdened(dst, vm, w);
            && left.memUsed + vm.memMib == src.memUsed && right.memUsed == dst.memUsed + vm.memMib
            && left.cpuUsage.Finite? && right.cpuUsage.Finite?
            && left.cpuUsage.value * src.node.cpuCores as real == src.cpuUsage.value * src.node.cpuCores as real - vm.cpuUsage
            && right.cpuUsage.value * dst.node.cpuCores as real == dst.cpuUsage.value * dst.node.cpuCores as real + vm.cpuUsage
  {
    ShareTimes(src.cpuUsage.value, vm.cpuUsage, src.node.cpuCores as real);
    ShareTimes(dst.cpuUsage.value, vm.cpuUsage, dst.node.cpuCores as real);
  }

  lemma ShareTimes(usage: real, v: real, cores: real)
    requires cores > 0.0
    ensures (usage - v / cores) * cores == usage * cores - v && (usage + v / cores) * cores == usage * cores + v
  {
    Divides(v, cores);
    var share := v / cores;
    assert (usage - share) * cores == usage * cores - share * cores;
    assert (usage + share) * cores == usage * cores + share * cores;
  }

  ghost predicate IsProposal(ctx: Context, src: Node, vm: Vm, dst: Node, c: Candidate) {
    && Worthwhile(ctx, src, vm, dst)
    && c == Candidate(vm.id, vm.name, src.hostname, dst.hostname, Score(ctx, src, vm, dst).value, BlackoutMs(vm.memMib))
  }

  /** `c` proposes to move a machine off an overloaded node, with good reason. */
  ghost predicate Eligible(ctx: Context, c: Candidate) {
    exists src, vm, dst ::
      src in ctx.nodes && src.load >= 0.6 && vm in src.vms && dst in ctx.nodes && IsProposal(ctx, src, vm, dst, c)
  }

  /** A simulated deviation is a number or not-a-number, never infinite. */
  lemma SigmaNumber(ctx: Context, vm: Vm, source: string, target: string)
    ensures !SigmaAfter(ctx, vm, source, target).Inf?
  {
  }

  ghost predicate ToOneOf(ctx: Context, src: Node, vm: Vm, dsts: seq<Node>, c: Candidate)
  {
    exists dst :: dst in dsts && IsProposal(ctx, src, vm, dst, c)
  }

  ghost predicate OffNode(ctx: Context, src: Node, vms: seq<Vm>, c: Candidate)
  {
    exists vm :: vm in vms && ToOneOf(ctx, src, vm, ctx.nodes, c)
  }

  ghost predicate OffOneOf(ctx: Context, srcs: seq<Node>, c: Candidate)
  {
    exists src :: src in srcs && src.load >= 0.6 && OffNode(ctx, src, src.vms, c)
  }

  /** The innermost loop. */
  method ProposeFor(ctx: Context, baseline: real, src: Node, vm: Vm, candidates: seq<Candidate>) returns (more: seq<Candidate>)
    requires baseline == Baseline(ctx)
    ensures forall c :: c in more <==> c in candidates || ToOneOf(ctx, src, vm, ctx.nodes, c)
  {
    hide Permits, Fits, LoadsAfter, Sigma, Baseline, Worthwhile;
    more := candidates;
    for k := 0 to |ctx.nodes|
      invariant forall c :: c in more <==> c in candidates || ToOneOf(ctx, src, vm, ctx.nodes[..k], c)
    {
      var dst := ctx.nodes[k];
      assert ctx.nodes[..k + 1] == ctx.nodes[..k] + [dst];
      var proposed := Propose(ctx, baseline, src, vm, dst);
      if proposed.Some? {
        more := more + [proposed.value];
      }
    }
    assert ctx.nodes[..|ctx.nodes|] == ctx.nodes;
  }

  /** The checks on one destination. */
  method Propose(ctx: Context, baseline: real, src: Node, vm: Vm, dst: Node) returns (proposed: Option<Candidate>)
    requires baseline == Baseline(ctx)
    ensures proposed.Some? <==> Worthwhile(ctx, src, vm, dst)
    ensures proposed.Some? ==> IsProposal(ctx, src, vm, dst, proposed.value)
  {
    hide Permits, Fits, LoadsAfter, Sigma, Baseline;
    if dst.hostname == src.hostname { return None; }
    var allowed := MigrationAllowed(ctx.rules, vm.id, dst.hostname, ctx.nodes);
    if !allowed { return None; }
    if !Fits(vm, dst) { return None; }
    var newSigma := SimulateMigration(ctx.nodes, vm, src.hostname, dst.hostname, ctx.weights, ctx.sqrt);
    SigmaNumber(ctx, vm, src.hostname, dst.hostname);
    var delta := Sub(Finite(baseline), newSigma);
    if AtMost(delta, 0.0) { return None; }
    var score := Div(delta, Cost(vm));
    if !AtLeast(score, ctx.minScore) { return None; }
    return Some(Candidate(vm.id, vm.name, src.hostname, dst.hostname, score.value, BlackoutMs(vm.memMib)));
  }

  /** The three nested loops: exactly the worthwhile migrations off overloaded nodes are proposed. */
  method AllCandidates(ctx: Context, sorted: seq<Node>) returns (candidates: seq<Candidate>)
    ensures forall c :: c in candidates <==> OffOneOf(ctx, sorted, c)
  {
    hide ToOneOf, Sigma, Baseline;
    candidates := [];
    var baseline := BalanceScore(ctx);
    for i := 0 to |sorted|
      invariant forall c :: c in candidates <==> OffOneOf(ctx, sorted[..i], c)
    {
      var src := sorted[i];
      assert sorted[..i + 1] == sorted[..i] + [src];
      if src.load < 0.6 { continue; }
      ghost var before := candidates;
      for j := 0 to |src.vms|
        invariant forall c :: c in candidates <==> c in before || OffNode(ctx, src, src.vms[..j], c)
      {
        assert src.vms[..j + 1] == src.vms[..j] + [src.vms[j]];
        candidates := ProposeFor(ctx, baseline, src, src.vms[j], candidates);
      }
      assert src.vms[..|src.vms|] == src.vms;
    }
    assert sorted[..|sorted|] == sorted;
  }

  lemma EligibleIs(ctx: Context, sorted: seq<Node>, c: Candidate)
    requires multiset(sorted) == multiset(ctx.nodes)
    ensures OffOneOf(ctx, sorted, c) <==> Eligible(ctx, c)
  {
    hide IsProposal;
    assert forall n :: n in sorted <==> n in ctx.nodes by {
      assert forall n :: n in sorted <==> n in multiset(sorted);
    }
    if Eligible(ctx, c) {
      var src, vm, dst :|
        src in ctx.nodes && src.load >= 0.6 && vm in src.vms && dst in ctx.nodes && IsProposal(ctx, src, vm, dst, c);
      assert ToOneOf(ctx, src, vm, ctx.nodes, c);
      assert OffNode(ctx, src, src.vms, c);
    }
  }

  // ----- Sorting, one migration per machine, and the limit -----

  ghost predicate Descending<T(!new)>(s: seq<T>, key: T -> real) {
    forall i, j :: 0 <= i < j < |s| ==> key(s[i]) >= key(s[j])
  }

  /** A stable sort by falling key. */
  function SortDown<T>(s: seq<T>, key: T -> real): seq<T> {
    if s == [] then [] else InsertDown(s[0], SortDown(s[1..], key), key)
  }

  function InsertDown<T>(x: T, s: seq<T>, key: T -> real): seq<T> {
    if s == [] || key(x) >= key(s[0]) then [x] + s else [s[0]] + InsertDown(x, s[1..], key)
  }

  lemma {:induction false} InsertDownSorts<T(!new)>(x: T, s: seq<T>, key: T -> real)
    requires Descending(s, key)
    ensures multiset(InsertDown(x, s, key)) == multiset{x} + multiset(s)
    ensures Descending(InsertDown(x, s, key), key)
    ensures |InsertDown(x, s, key)| > 0 && key(InsertDown(x, s, key)[0]) >= key(x)
    ensures InsertDown(x, s, key)[0] == x || (s != [] && InsertDown(x, s, key)[0] == s[0])
  {
    if s != [] && key(x) < key(s[0]) {
      InsertDownSorts(x, s[1..], key);
      assert s == [s[0]] + s[1..];
      DescendingCons(s[0], InsertDown(x, s[1..], key), key);
    } else {
      DescendingCons(x, s, key);
    }
  }

  lemma DescendingCons<T(!new)>(x: T, s: seq<T>, key: T -> real)
    requires Descending(s, key) && (s != [] ==> key(x) >= key(s[0]))
    ensures Descending([x] + s, key)
  {
  }

  lemma {:induction false} SortDownSorts<T(!new)>(s: seq<T>, key: T -> real)
    ensures Descending(SortDown(s, key), key) && multiset(SortDown(s, key)) == multiset(s)
  {
    if s != [] {
      SortDownSorts(s[1..], key);
      InsertDownSorts(s[0], SortDown(s[1..], key), key);
      assert s == [s[0]] + s[1..];
    }
  }

  ghost predicate Falling(s: seq<Candidate>) {
    forall i, j :: 0 <= i < j < |s| ==> s[i].score >= s[j].score
  }

  ghost predicate OnePerVm(s: seq<Candidate>) {
    forall i, j :: 0 <= i < j < |s| ==> s[i].vmId != s[j].vmId
  }

  /** A chosen migration of the same machine scores at least as much. */
  ghost predicate Beaten(chosen: seq<Candidate>, c: Candidate) {
    exists i :: 0 <= i < |chosen| && chosen[i].vmId == c.vmId && chosen[i].score >= c.score
  }

  /** The loop of `retain` after the first `i` candidates. */
  ghost predicate Retained(sorted: seq<Candidate>, i: nat, kept: seq<Candidate>, seen: set<nat>)
    requires i <= |sorted|
  {
    && Falling(kept) && OnePerVm(kept)
    && (forall j :: 0 <= j < |kept| ==> kept[j].vmId in seen && exists k :: 0 <= k < i && sorted[k] == kept[j])
    && (forall id :: id in seen ==> exists j :: 0 <= j < |kept| && kept[j].vmId == id)
    && (forall k :: 0 <= k < i ==> Beaten(kept, sorted[k]))
  }

  lemma RetainKeeps(sorted: seq<Candidate>, i: nat, kept: seq<Candidate>, seen: set<nat>)
    requires Falling(sorted) && i < |sorted| && Retained(sorted, i, kept, seen) && sorted[i].vmId !in seen
    ensures Retained(sorted, i + 1, kept + [sorted[i]], seen + {sorted[i].vmId})
  {
    var c := sorted[i];
    var more := kept + [c];
    BeatenMore(kept, c);
    hide Beaten;
    forall j | 0 <= j < |more| ensures exists k :: 0 <= k < i + 1 && sorted[k] == more[j] {
      if j == |kept| { assert sorted[i] == more[j]; }
    }
    forall id | id in seen + {c.vmId} ensures exists j :: 0 <= j < |more| && more[j].vmId == id {
      if id in seen {
        var j :| 0 <= j < |kept| && kept[j].vmId == id;
        assert more[j].vmId == id;
      } else {
        assert more[|kept|].vmId == id;
      }
    }
  }

  lemma RetainDrops(sorted: seq<Candidate>, i: nat, kept: seq<Candidate>, seen: set<nat>)
    requires Falling(sorted) && i < |sorted| && Retained(sorted, i, kept, seen) && sorted[i].vmId in seen
    ensures Retained(sorted, i + 1, kept, seen)
  {
  }

  /** `retain` with a set of machines already seen. */
  method RetainFirst(sorted: seq<Candidate>) returns (kept: seq<Candidate>)
    requires Falling(sorted)
    ensures Falling(kept) && OnePerVm(kept)
    ensures forall i :: 0 <= i < |kept| ==> kept[i] in sorted
    ensures forall i :: 0 <= i < |sorted| ==> Beaten(kept, sorted[i])
  {
    kept := [];
    var seen: set<nat> := {};
    for i := 0 to |sorted|
      invariant Retained(sorted, i, kept, seen)
    {
      hide Falling, OnePerVm, Beaten, Retained;
      if sorted[i].vmId !in seen {
        RetainKeeps(sorted, i, kept, seen);
        kept, seen := kept + [sorted[i]], seen + {sorted[i].vmId};
      } else {
        RetainDrops(sorted, i, kept, seen);
      }
    }
  }

  lemma BeatenMore(kept: seq<Candidate>, c: Candidate)
    ensures forall d :: Beaten(kept, d) ==> Beaten(kept + [c], d)
    ensures Beaten(kept + [c], c)
  {
    forall d | Beaten(kept, d) ensures Beaten(kept + [c], d) {
      var i :| 0 <= i < |kept| && kept[i].vmId == d.vmId && kept[i].score >= d.score;
      assert (kept + [c])[i] == kept[i];
    }
    assert (kept + [c])[|kept|] == c;
  }

  /** A chosen migration of the same machine, or five migrations, score at least as much. */
  ghost predicate Dominated(plan: seq<Candidate>, c: Candidate) {
    || Beaten(plan, c)
    || (|plan| == 5 && forall i :: 0 <= i < 5 ==> plan[i].score >= c.score)
  }

  lemma TruncatedDominates(kept: seq<Candidate>, c: Candidate)
    requires Falling(kept) && Beaten(kept, c)
    ensures Dominated(if |kept| > 5 then kept[..5] else kept, c)
  {
  }

  /** The plan holds at most five migrations of different machines with falling scores, each worthwhile,
      and every worthwhile migration it leaves out is dominated. */
  method ComputePlan(ctx: Context) returns (plan: seq<Candidate>)
    ensures |plan| <= 5 && OnePerVm(plan) && Falling(plan)
    ensures forall i :: 0 <= i < |plan| ==> Eligible(ctx, plan[i])
    ensures forall c :: Eligible(ctx, c) ==> Dominated(plan, c)
  {
    hide Eligible, OffOneOf, Dominated, Beaten, SortDown;
    var sortedNodes := SortDown(ctx.nodes, (n: Node) => n.load);
    SortDownSorts(ctx.nodes, (n: Node) => n.load);
    var candidates := AllCandidates(ctx, sortedNodes);
    forall c ensures c in candidates <==> Eligible(ctx, c) {
      EligibleIs(ctx, sortedNodes, c);
    }
    var sorted := SortDown(candidates, (c: Candidate) => c.score);
    SortDownSorts(candidates, (c: Candidate) => c.score);
    forall c ensures c in sorted <==> Eligible(ctx, c) {
      assert c in sorted <==> c in multiset(sorted);
    }
    var kept := RetainFirst(sorted);
    plan := if |kept| > 5 then kept[..5] else kept;
    forall c | Eligible(ctx, c) ensures Dominated(plan, c) {
      var i :| 0 <= i < |sorted| && sorted[i] == c;
      TruncatedDominates(kept, sorted[i]);
    }
  }

  /** With a monotone square root, a migration that is worthwhile leaves finite loads, of lower variance. */
  lemma LowersVariance(ctx: Context, src: Node, vm: Vm, dst: Node)
    requires dst in ctx.nodes && src in ctx.nodes && Worthwhile(ctx, src, vm, dst)
    requires forall a, b :: a <= b ==> ctx.sqrt(a) <= ctx.sqrt(b)
    ensures var after := LoadsAfter(ctx.nodes, vm, src.hostname, dst.hostname, ctx.weights);
            && AllFinite(after) && AllFinite(Loads(ctx.nodes)) && |after| == |Loads(ctx.nodes)| >= 2
            && Variance(Values(after)) < Variance(Values(Loads(ctx.nodes)))
  {
    hide Variance, Permits, Fits, Score;
    AllLoadsFinite(ctx.nodes);
    assert |ctx.nodes| >= 2 by {
      var i :| 0 <= i < |ctx.nodes| && ctx.nodes[i] == src;
      var j :| 0 <= j < |ctx.nodes| && ctx.nodes[j] == dst;
      assert i != j;
    }
  }

  /** A node without cores is no source: what is left of its processor time is infinite or undefined, and where
      it is infinite the deviation is undefined, so nothing is proposed. */
  lemma NoCoresNoSource(ctx: Context, src: Node, vm: Vm, dst: Node)
    requires Find(ctx.nodes, src.hostname) < |ctx.nodes| && ctx.nodes[Find(ctx.nodes, src.hostname)].cpuCores == 0
    requires vm.cpuUsage > 0.0
    ensures !Worthwhile(ctx, src, vm, dst)
  {
    hide Permits, Fits, Score;
    var k := Find(ctx.nodes, src.hostname);
    var after := LoadsAfter(ctx.nodes, vm, src.hostname, dst.hostname, ctx.weights);
    if dst.hostname != src.hostname {
      assert Find(ctx.nodes, dst.hostname) != k;
      assert after[k] == Relieved(Unshifted(ctx.nodes[k]), vm, ctx.weights).load;
      assert !after[k].Finite?;
      assert !AllFinite(after);
      assert |ctx.nodes| < 2 ==> SigmaAfter(ctx, vm, src.hostname, dst.hostname) == Finite(0.0) && Baseline(ctx) == 0.0;
    }
  }
}
