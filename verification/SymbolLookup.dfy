/** Symbol lookup through the two ELF hash tables, `sysv_lookup` and `gnu_lookup`
    with its Bloom filter, and `find_sym2` over a list of objects. Tables are the raw
    32-bit words the code indexes; 64-bit Bloom words are little-endian pairs. */
module SymbolLookup {
  import opened Bits
  import opened Bytes
  import opened Sequences
  import opened SymbolHash

  /** `x | 1`. */
  function OrOne(x: nat): nat {
    x - x % 2 + 1
  }

  // ----- Symbols -----

  /** Names and version words of an object's dynamic symbols; entry 0 is reserved. */
  datatype Symtab = Symtab(names: seq<Name>, versym: Option<seq<int>>)

  ghost predicate WellSized(tab: Symtab) {
    |tab.names| > 0 && (tab.versym.Some? ==> |tab.versym.value| == |tab.names|)
  }

  predicate Visible(tab: Symtab, i: nat)
    requires WellSized(tab) && i < |tab.names|
  {
    tab.versym.Some? ==> tab.versym.value[i] >= 0
  }

  predicate Matches(tab: Symtab, i: nat, s: Name)
    requires WellSized(tab)
  {
    i < |tab.names| && Visible(tab, i) && tab.names[i] == s
  }

  /** `r` is what a lookup of `s` among the indexed symbols must return, 0 standing for none. */
  ghost predicate Finds(tab: Symtab, indexed: set<nat>, s: Name, r: nat)
    requires WellSized(tab)
  {
    && (r != 0 ==> r in indexed && Matches(tab, r, s))
    && (r == 0 ==> forall i :: i in indexed ==> !Matches(tab, i, s))
  }

  // ----- The System V table -----

  /** `l` is the chain that starts at symbol `i`. */
  ghost predicate IsChain(ht: seq<nat>, i: nat, l: seq<nat>)
    requires |ht| > 0
    decreases |l|
  {
    if i == 0 then l == []
    else l != [] && l[0] == i && 2 + ht[0] + i < |ht| && IsChain(ht, ht[2 + ht[0] + i], l[1..])
  }

  /** Bucket `b`'s chain ends, holds only indexed symbols, and holds those whose names hash to it. */
  ghost predicate Bucket(ht: seq<nat>, tab: Symtab, indexed: set<nat>, b: nat, l: seq<nat>)
    requires |ht| > 0 && ht[0] > 0 && forall i :: i in indexed ==> i < |tab.names|
  {
    && 2 + b < |ht| && IsChain(ht, ht[2 + b], l)
    && (forall i :: i in l ==> i in indexed)
    && (forall i :: i in indexed && SysvHash(tab.names[i]) % ht[0] == b ==> i in l)
  }

  ghost predicate HasChain(ht: seq<nat>, tab: Symtab, indexed: set<nat>, b: nat)
    requires |ht| > 0 && ht[0] > 0 && forall i :: i in indexed ==> i < |tab.names|
  {
    exists l :: Bucket(ht, tab, indexed, b, l)
  }

  /** System V gABI, "Hash Table". */
  ghost predicate SysvTable(ht: seq<nat>, tab: Symtab, indexed: set<nat>) {
    && WellSized(tab) && |ht| > 2 && ht[0] > 0 && |ht| == 2 + ht[0] + |tab.names|
    && (forall i :: i in indexed ==> 0 < i < |tab.names|)
    && forall b: nat :: b < ht[0] ==> HasChain(ht, tab, indexed, b)
  }

  /** `r` is the first match along `l`, 0 if there is none. */
  ghost predicate FirstOf(l: seq<nat>, tab: Symtab, s: Name, r: nat)
    requires WellSized(tab)
  {
    if l == [] then r == 0
    else if Matches(tab, l[0], s) then r == l[0] != 0
    else FirstOf(l[1..], tab, s, r)
  }

  /** `r` is the first match along the chain of the name's bucket. */
  ghost predicate SysvPicks(ht: seq<nat>, tab: Symtab, s: Name, r: nat)
    requires WellSized(tab) && |ht| > 2 && ht[0] > 0 && 2 + SysvHash(s) % ht[0] < |ht|
  {
    exists l :: IsChain(ht, ht[2 + SysvHash(s) % ht[0]], l) && FirstOf(l, tab, s, r)
  }

  lemma {:induction false} ChainUnique(ht: seq<nat>, i: nat, l: seq<nat>, m: seq<nat>)
    requires |ht| > 0 && IsChain(ht, i, l) && IsChain(ht, i, m)
    ensures l == m
    decreases |l|
  {
    if i != 0 {
      ChainUnique(ht, ht[2 + ht[0] + i], l[1..], m[1..]);
      assert l == [i] + l[1..] && m == [i] + m[1..];
    }
  }

  lemma {:induction false} FirstUnique(l: seq<nat>, tab: Symtab, s: Name, r: nat, r': nat)
    requires WellSized(tab) && FirstOf(l, tab, s, r) && FirstOf(l, tab, s, r')
    ensures r == r'
    decreases |l|
  {
    if l != [] && !Matches(tab, l[0], s) {
      FirstUnique(l[1..], tab, s, r, r');
    }
  }

  method SysvLookup(s: Name, h: nat, ht: seq<nat>, tab: Symtab, ghost indexed: set<nat>) returns (r: nat)
    requires SysvTable(ht, tab, indexed) && h == SysvHash(s)
    ensures Finds(tab, indexed, s, r) && SysvPicks(ht, tab, s, r)
  {
    var b := h % ht[0];
    assert HasChain(ht, tab, indexed, b);
    ghost var chain :| Bucket(ht, tab, indexed, b, chain);
    hide SysvHash;
    var i := ht[2 + b];
    ghost var rest := chain;
    while i != 0
      invariant IsChain(ht, i, rest)
      invariant forall k :: k in rest ==> k in chain
      invariant forall k :: k in chain ==> k in rest || !Matches(tab, k, s)
      invariant forall q :: FirstOf(rest, tab, s, q) ==> FirstOf(chain, tab, s, q)
      decreases |rest|
    {
      assert i in rest;
      if (tab.versym.None? || tab.versym.value[i] >= 0) && tab.names[i] == s {
        assert FirstOf(rest, tab, s, i);
        return i;
      }
      assert rest == [i] + rest[1..];
      rest := rest[1..];
      i := ht[2 + ht[0] + i];
    }
    assert FirstOf(rest, tab, s, 0);
    return 0;
  }

  // ----- The GNU table -----

  function BucketsAt(gt: seq<nat>): nat
    requires |gt| >= 4
  {
    4 + 2 * gt[2]
  }

  function BloomWord(gt: seq<nat>, k: nat): nat
    requires 4 + 2 * k + 1 < |gt|
  {
    gt[4 + 2 * k] + U32 * gt[5 + 2 * k]
  }

  ghost predicate GnuShape(gt: seq<nat>, n: nat) {
    && |gt| >= 4 && gt[0] > 0 && 0 < gt[1] <= n && gt[3] < 32
    && (exists e: nat :: gt[2] == Pow2(e))
    && |gt| == BucketsAt(gt) + gt[0] + (n - gt[1])
  }

  /** The first symbol of bucket `b`'s run, 0 if it is empty. */
  function RunStart(gt: seq<nat>, b: nat): nat
    requires |gt| >= 4 && BucketsAt(gt) + b < |gt|
  {
    gt[BucketsAt(gt) + b]
  }

  /** Symbol `i`'s hash value, whose low bit is replaced by the end mark of its run. */
  function HashValue(gt: seq<nat>, i: nat): nat
    requires |gt| >= 4 && gt[1] <= i && BucketsAt(gt) + gt[0] + (i - gt[1]) < |gt|
  {
    gt[BucketsAt(gt) + gt[0] + (i - gt[1])]
  }

  /** Symbol `i` stands in its bucket's run, before or at the run's end mark, with its hash value. */
  ghost predicate InRun(gt: seq<nat>, n: nat, i: nat, h: nat)
    requires GnuShape(gt, n) && gt[1] <= i < n
  {
    var start := RunStart(gt, h % gt[0]);
    && gt[1] <= start <= i
    && OrOne(HashValue(gt, i)) == OrOne(h)
    && forall j :: start <= j < i ==> HashValue(gt, j) % 2 == 0
  }

  /** The filter has both bits of `h`. */
  ghost predicate InFilter(gt: seq<nat>, n: nat, h: nat)
    requires GnuShape(gt, n)
  {
    var f := BloomWord(gt, h / 64 % gt[2]);
    BitSet(f, h % 64) && BitSet(f, ShiftRight(h, gt[3]) % 64)
  }

  /** Every run has an end mark. */
  ghost predicate RunEnds(gt: seq<nat>, n: nat, start: nat)
    requires GnuShape(gt, n)
  {
    gt[1] <= start < n && exists e :: start <= e < n && HashValue(gt, e) % 2 == 1
  }

  /** The symbols from `lo` up to `n`. */
  function Interval(lo: nat, n: nat): (s: set<nat>)
    ensures forall i: nat :: i in s <==> lo <= i < n
    decreases n - lo
  {
    if lo >= n then {} else {lo} + Interval(lo + 1, n)
  }

  /** The symbols a GNU table indexes. */
  function Indexed(gt: seq<nat>, n: nat): set<nat>
    requires |gt| >= 4
  {
    Interval(gt[1], n)
  }

  /** A table as a linker lays it out: four words, the filter, the buckets, and a hash value for every indexed symbol. */
  lemma GnuLaidOut(buckets: seq<nat>, first: nat, shift: nat, bloom: seq<nat>, values: seq<nat>, gt: seq<nat>, k: nat, b: nat, i: nat)
    requires |bloom| % 2 == 0 && k < |bloom| / 2 && b < |buckets| && first <= i < first + |values|
    requires gt == [|buckets|, first, |bloom| / 2, shift] + bloom + buckets + values
    ensures BloomWord(gt, k) == bloom[2 * k] + 0x1_0000_0000 * bloom[2 * k + 1]
    ensures BucketsAt(gt) + b < |gt| && RunStart(gt, b) == buckets[b]
    ensures BucketsAt(gt) + gt[0] + (i - gt[1]) < |gt| && HashValue(gt, i) == values[i - first]
  {
  }

  /** The System V table: two counts, the buckets, and a successor for every symbol. */
  lemma SysvLaidOut(buckets: seq<nat>, chains: seq<nat>, ht: seq<nat>, i: nat)
    requires ht == [|buckets|, |chains|] + buckets + chains && 0 < i < |chains|
    ensures forall l :: IsChain(ht, i, [i] + l) <==> IsChain(ht, chains[i], l)
    ensures forall b :: 0 <= b < |buckets| ==> ht[2 + b] == buckets[b]
  {
    assert ht[2 + ht[0] + i] == chains[i];
    forall l ensures IsChain(ht, i, [i] + l) <==> IsChain(ht, chains[i], l) {
      assert ([i] + l)[1..] == l;
    }
  }

  ghost predicate GnuTable(gt: seq<nat>, tab: Symtab) {
    var n := |tab.names|;
    && WellSized(tab) && GnuShape(gt, n)
    && (forall b: nat :: b < gt[0] && RunStart(gt, b) != 0 ==> RunEnds(gt, n, RunStart(gt, b)))
    && (forall i :: gt[1] <= i < n ==> InRun(gt, n, i, GnuHash(tab.names[i])) && InFilter(gt, n, GnuHash(tab.names[i])))
  }

  /** `r` is the lowest indexed match, 0 if there is none. */
  ghost predicate GnuPicks(gt: seq<nat>, tab: Symtab, s: Name, r: nat)
    requires WellSized(tab) && |gt| >= 4
  {
    if r == 0 then forall i :: gt[1] <= i < |tab.names| ==> !Matches(tab, i, s)
    else gt[1] <= r && Matches(tab, r, s) && forall i :: gt[1] <= i < r ==> !Matches(tab, i, s)
  }

  method GnuLookup(h1: nat, gt: seq<nat>, tab: Symtab, s: Name) returns (r: nat)
    requires GnuTable(gt, tab) && h1 == GnuHash(s)
    ensures Finds(tab, Indexed(gt, |tab.names|), s, r) && GnuPicks(gt, tab, s, r)
  {
    hide GnuHash, InFilter, Finds, GnuPicks, OrOne;
    ghost var n := |tab.names|;
    var b := h1 % gt[0];
    var i := RunStart(gt, b);
    if i == 0 {
      RunMisses(gt, tab, s, 0);
      return 0;
    }
    ghost var start := i;
    assert RunEnds(gt, n, start);
    ghost var e :| start <= e < n && HashValue(gt, e) % 2 == 1;
    while true
      invariant start <= i <= e
      invariant forall j :: start <= j < i ==> HashValue(gt, j) % 2 == 0 && !Matches(tab, j, s)
      decreases e - i
    {
      assert InRun(gt, n, i, GnuHash(tab.names[i]));
      var h2 := HashValue(gt, i);
      if OrOne(h1) == OrOne(h2) && (tab.versym.None? || tab.versym.value[i] >= 0) && tab.names[i] == s {
        RunHits(gt, tab, s, i);
        return i;
      }
      if h2 % 2 == 1 {
        RunMisses(gt, tab, s, i);
        return 0;
      }
      i := i + 1;
    }
  }

  /** A run searched to its end mark at `e`, or an empty one, holds every symbol of the name. */
  lemma RunMisses(gt: seq<nat>, tab: Symtab, s: Name, e: nat)
    requires GnuTable(gt, tab)
    requires var start := RunStart(gt, GnuHash(s) % gt[0]);
      start == 0 ||
      (gt[1] <= start <= e < |tab.names| && HashValue(gt, e) % 2 == 1 && forall j :: start <= j <= e ==> !Matches(tab, j, s))
    ensures Finds(tab, Indexed(gt, |tab.names|), s, 0) && GnuPicks(gt, tab, s, 0)
  {
    hide GnuHash, InFilter;
    forall i | gt[1] <= i < |tab.names| ensures !Matches(tab, i, s) {
      assert InRun(gt, |tab.names|, i, GnuHash(tab.names[i]));
    }
  }

  /** The first match of a run is the lowest of all. */
  lemma RunHits(gt: seq<nat>, tab: Symtab, s: Name, i: nat)
    requires GnuTable(gt, tab)
    requires var start := RunStart(gt, GnuHash(s) % gt[0]);
      gt[1] <= start <= i < |tab.names| && Matches(tab, i, s) && forall j :: start <= j < i ==> !Matches(tab, j, s)
    ensures Finds(tab, Indexed(gt, |tab.names|), s, i) && GnuPicks(gt, tab, s, i)
  {
    hide GnuHash, InFilter;
    forall j | gt[1] <= j < i ensures !Matches(tab, j, s) {
      assert InRun(gt, |tab.names|, j, GnuHash(tab.names[j]));
    }
  }

  /** The filter never rejects a present symbol, so filtering does not change the result. */
  method GnuLookupFiltered(h1: nat, gt: seq<nat>, tab: Symtab, s: Name, fofs: nat, fmask: nat) returns (r: nat)
    requires GnuTable(gt, tab) && h1 == GnuHash(s) && fofs == h1 / 64 && fmask == Pow2(h1 % 64)
    ensures Finds(tab, Indexed(gt, |tab.names|), s, r) && GnuPicks(gt, tab, s, r)
  {
    hide GnuHash, InRun, RunEnds, Pow2, And, ShiftRight;
    ghost var n := |tab.names|;
    ghost var e: nat :| gt[2] == Pow2(e);
    PowerMask(fofs, e);
    var f := BloomWord(gt, And(fofs, gt[2] - 1));
    AndBit(f, h1 % 64);
    if And(f, fmask) == 0 {
      NotInFilter(gt, tab, s);
      return 0;
    }
    var shifted := ShiftRight(f, ShiftRight(h1, gt[3]) % 64);
    AndOne(shifted);
    if And(shifted, 1) == 0 {
      NotInFilter(gt, tab, s);
      return 0;
    }
    r := GnuLookup(h1, gt, tab, s);
  }

  lemma PowerMask(x: nat, e: nat)
    ensures And(x, Pow2(e) - 1) == x % Pow2(e) < Pow2(e)
  {
    AndMask(x, e, 0);
  }

  lemma NotInFilter(gt: seq<nat>, tab: Symtab, s: Name)
    requires GnuTable(gt, tab) && !InFilter(gt, |tab.names|, GnuHash(s))
    ensures Finds(tab, Indexed(gt, |tab.names|), s, 0) && GnuPicks(gt, tab, s, 0)
  {
  }

  /** Two lookups over the same symbols agree on whether a name is found, and on the symbol when it is unique. */
  method CompareLookups(s: Name, ht: seq<nat>, gt: seq<nat>, tab: Symtab) returns (r: nat, r': nat)
    requires GnuTable(gt, tab) && SysvTable(ht, tab, Indexed(gt, |tab.names|))
    ensures r == 0 <==> r' == 0
    ensures r == 0 <==> forall i :: gt[1] <= i < |tab.names| ==> !Matches(tab, i, s)
    ensures Unique(tab, Indexed(gt, |tab.names|), s) ==> r == r'
  {
    assert |gt| >= 4;
    hide SysvTable, GnuTable, GnuHash, SysvHash, Pow2;
    r := SysvLookup(s, SysvHash(s), ht, tab, Indexed(gt, |tab.names|));
    var gh := GnuHash(s);
    r' := GnuLookupFiltered(gh, gt, tab, s, gh / 64, Pow2(gh % 64));
  }

  /** At most one indexed symbol of the name is visible. */
  ghost predicate Unique(tab: Symtab, indexed: set<nat>, s: Name)
    requires WellSized(tab)
  {
    forall i, j :: i in indexed && j in indexed && Matches(tab, i, s) && Matches(tab, j, s) ==> i == j
  }

  // ----- Lookup over a list of objects -----

  datatype Sym = Sym(shndx: nat, value: nat, kind: nat, bind: nat)

  const STT_TLS := 6
  datatype Lib = Lib(tab: Symtab, syms: seq<Sym>, gnu: Option<seq<nat>>, sysv: seq<nat>)

  ghost predicate ValidLib(lib: Lib) {
    && WellSized(lib.tab) && |lib.syms| == |lib.tab.names|
    && (lib.gnu.Some? ==> GnuTable(lib.gnu.value, lib.tab))
    && (lib.gnu.None? ==> SysvTable(lib.sysv, lib.tab, Interval(1, |lib.tab.names|)))
  }

  /** The symbols the table in use indexes. */
  ghost function LibIndexed(lib: Lib): set<nat>
    requires ValidLib(lib)
  {
    if lib.gnu.Some? then Indexed(lib.gnu.value, |lib.tab.names|) else Interval(1, |lib.tab.names|)
  }

  /** A symbol of the name that can be used: defined if that is needed or it is thread-local, with a value unless it is
      thread-local, of a type and a binding that are looked up. */
  ghost predicate Provides(lib: Lib, s: Name, needDef: bool, i: nat)
    requires ValidLib(lib)
  {
    && i in LibIndexed(lib) && Matches(lib.tab, i, s)
    && var sym := lib.syms[i];
    && (needDef || sym.kind == 6 ==> sym.shndx != 0) && (sym.value != 0 || sym.kind == 6)
    && sym.kind in {0, 1, 2, 5, 6} && sym.bind in {1, 2, 10}
  }

  /** The symbol of the name that a lookup in the object returns, 0 for none. */
  ghost predicate Picks(lib: Lib, s: Name, r: nat)
    requires ValidLib(lib)
  {
    if lib.gnu.Some? then GnuPicks(lib.gnu.value, lib.tab, s, r) else SysvPicks(lib.sysv, lib.tab, s, r)
  }

  /** There is only one such symbol. */
  lemma PicksUnique(lib: Lib, s: Name, r: nat, r': nat)
    requires ValidLib(lib) && Picks(lib, s, r) && Picks(lib, s, r')
    ensures r == r'
  {
    hide SysvHash, GnuHash;
    if lib.gnu.None? {
      var start := lib.sysv[2 + SysvHash(s) % lib.sysv[0]];
      var l :| IsChain(lib.sysv, start, l) && FirstOf(l, lib.tab, s, r);
      var m :| IsChain(lib.sysv, start, m) && FirstOf(m, lib.tab, s, r');
      ChainUnique(lib.sysv, start, l, m);
      FirstUnique(l, lib.tab, s, r, r');
    }
  }

  method LookupIn(lib: Lib, s: Name, gh: nat, h: nat) returns (r: nat)
    requires ValidLib(lib) && gh == GnuHash(s) && h == SysvHash(s)
    ensures Finds(lib.tab, LibIndexed(lib), s, r) && Picks(lib, s, r)
    ensures r < |lib.tab.names| == |lib.syms|
  {
    hide SysvTable, GnuTable, GnuHash, SysvHash, Pow2, GnuPicks, SysvPicks;
    if lib.gnu.Some? {
      r := GnuLookupFiltered(gh, lib.gnu.value, lib.tab, s, gh / 64, Pow2(gh % 64));
    } else {
      r := SysvLookup(s, h, lib.sysv, lib.tab, Interval(1, |lib.tab.names|));
    }
  }

  /** Undefined where a definition is needed, undefined and thread-local, without a value and not thread-local, or
      of a type or a binding that is not looked up. */
  predicate Unusable(sym: Sym, needDef: bool) {
    || (needDef && sym.shndx == 0)
    || (sym.kind == 6 && sym.shndx == 0)
    || (sym.kind != 6 && sym.value == 0)
    || sym.kind in {3, 4} || sym.kind > 6
    || sym.bind == 0 || 2 < sym.bind < 10 || sym.bind > 10
  }

  /** The object has no symbol of the name, or one that cannot be used. */
  ghost predicate Refused(lib: Lib, s: Name, needDef: bool)
    requires ValidLib(lib)
  {
    exists i: nat :: i < |lib.syms| && Picks(lib, s, i) && (i == 0 || Unusable(lib.syms[i], needDef))
  }

  /** `find_sym2`: the symbol that the first object with a usable one picks, through whichever table the object has;
      the objects before it are refused. */
  method FindSym(libs: seq<Lib>, s: Name, needDef: bool) returns (r: Option<(nat, nat)>)
    requires forall k :: 0 <= k < |libs| ==> ValidLib(libs[k])
    ensures r.Some? ==>
      && r.value.0 < |libs| && r.value.1 != 0 && Picks(libs[r.value.0], s, r.value.1) && Provides(libs[r.value.0], s, needDef, r.value.1)
      && forall k :: 0 <= k < r.value.0 ==> Refused(libs[k], s, needDef)
    ensures r.Some? ==>
      && r.value.1 < |libs[r.value.0].syms|
      && var sym := libs[r.value.0].syms[r.value.1];
      (needDef ==> sym.shndx != 0) && (sym.kind == 6 ==> sym.shndx != 0) && (sym.kind != 6 ==> sym.value != 0)
    ensures r.None? ==> forall k :: 0 <= k < |libs| ==> Refused(libs[k], s, needDef)
  {
    hide ValidLib, GnuHash, SysvHash, Picks, Matches, And, Pow2;
    var gh, h := GnuHash(s), SysvHash(s);
    for k := 0 to |libs|
      invariant forall j :: 0 <= j < k ==> Refused(libs[j], s, needDef)
    {
      var i := LookupIn(libs[k], s, gh, h);
      if i == 0 { continue; }
      var sym := libs[k].syms[i];
      TypeMask(sym.kind);
      BindMask(sym.bind);
      if sym.shndx == 0 && (needDef || sym.kind == STT_TLS) { continue; }
      if sym.value == 0 && sym.kind != STT_TLS { continue; }
      if And(OK_TYPES, Pow2(sym.kind)) == 0 { continue; }
      if And(OK_BINDS, Pow2(sym.bind)) == 0 { continue; }
      return Some((k, i));
    }
    return None;
  }

  /** Where a name is unique among an object's visible symbols, a refused object has no usable symbol of it. */
  lemma RefusedProvidesNone(lib: Lib, s: Name, needDef: bool, i: nat)
    requires ValidLib(lib) && Refused(lib, s, needDef) && Unique(lib.tab, LibIndexed(lib), s)
    ensures !Provides(lib, s, needDef, i)
  {
    var k: nat :| k < |lib.syms| && Picks(lib, s, k) && (k == 0 || Unusable(lib.syms[k], needDef));
    PickedFinds(lib, s, k);
    hide ValidLib, Picks;
  }

  lemma PickedFinds(lib: Lib, s: Name, r: nat)
    requires ValidLib(lib) && Picks(lib, s, r)
    ensures Finds(lib.tab, LibIndexed(lib), s, r)
  {
    hide SysvHash, GnuHash;
    if lib.gnu.None? {
      var b := SysvHash(s) % lib.sysv[0];
      var indexed := Interval(1, |lib.tab.names|);
      assert HasChain(lib.sysv, lib.tab, indexed, b);
      var chain :| Bucket(lib.sysv, lib.tab, indexed, b, chain);
      var l :| IsChain(lib.sysv, lib.sysv[2 + b], l) && FirstOf(l, lib.tab, s, r);
      ChainUnique(lib.sysv, lib.sysv[2 + b], l, chain);
      FirstFinds(chain, lib.tab, s, r);
    }
  }

  lemma {:induction false} FirstFinds(l: seq<nat>, tab: Symtab, s: Name, r: nat)
    requires WellSized(tab) && FirstOf(l, tab, s, r)
    ensures if r == 0 then forall i :: i in l ==> !Matches(tab, i, s) else r in l && Matches(tab, r, s)
    decreases |l|
  {
    if l != [] && !Matches(tab, l[0], s) {
      FirstFinds(l[1..], tab, s, r);
      assert l == [l[0]] + l[1..];
    }
  }
}
