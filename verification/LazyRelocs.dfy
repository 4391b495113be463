/** Deferred relocations: `redo_lazy_relocs` gives an object's own array of deferred entries
    to `do_relocs`, which refills that array with what is still unresolved as it reads it. */
module LazyRelocs {
  import opened Bits
  import opened Dsos
  import opened Sequences

  /** One entry: offset, type and symbol, addend. */
  datatype Rel = Rel(offset: nat, info: nat, addend: nat)

  /** The values of the symbols that can be found now, by type-and-symbol word. The symbol index in the word
      is relative to one object's symbol table, so every object has its own. */
  type Env = map<nat, nat>

  /** The deferred entries of one object and what its words stand for. */
  datatype Deferred = Deferred(rels: seq<Rel>, env: Env)

  function Left(d: Deferred): seq<Rel> {
    Pending(d.rels, d.env)
  }

  class Memory {
    var words: map<nat, nat>
    constructor ()
      ensures words == map[]
    {
      words := map[];
    }
  }

  // ----- What a table of entries does -----

  function Pending(rels: seq<Rel>, env: Env): seq<Rel> {
    if rels == [] then []
    else Pending(rels[..|rels| - 1], env) + if rels[|rels| - 1].info in env then [] else [rels[|rels| - 1]]
  }

  /** Each resolved entry stores symbol plus addend at its address, once, in order. */
  function Applied(rels: seq<Rel>, env: Env, base: nat, words: map<nat, nat>): map<nat, nat> {
    if rels == [] then words
    else
      var r := rels[|rels| - 1];
      var w := Applied(rels[..|rels| - 1], env, base, words);
      if r.info in env then w[base + r.offset := (env[r.info] + r.addend) % W] else w
  }

  function EntryAt(a: seq<nat>, i: nat): Rel
    requires 3 * i + 2 < |a|
  {
    Rel(a[3 * i], a[3 * i + 1], a[3 * i + 2])
  }

  /** The first `n` entries of an array of words. */
  function Entries(a: seq<nat>, n: nat): (rels: seq<Rel>)
    requires 3 * n <= |a|
    ensures |rels| == n && forall i :: 0 <= i < n ==> rels[i] == EntryAt(a, i)
    decreases n
  {
    if n == 0 then [] else Entries(a, n - 1) + [EntryAt(a, n - 1)]
  }

  function Store(a: seq<nat>, m: nat, r: Rel): seq<nat>
    requires 3 * m + 2 < |a|
  {
    a[3 * m := r.offset][3 * m + 1 := r.info][3 * m + 2 := r.addend]
  }

  /** Storing an entry at slot `m`, at or before entry `i`, keeps the kept entries and the unread ones. */
  lemma StoreKeeps(a: seq<nat>, m: nat, i: nat, n: nat, r: Rel)
    requires m <= i < n && 3 * n <= |a|
    ensures var b := Store(a, m, r);
            && Entries(b, m + 1) == Entries(a, m) + [r]
            && forall k :: i < k < n ==> EntryAt(b, k) == EntryAt(a, k)
  {
  }

  /** With `i` of the entries read, the array starts with the `m` unresolved ones among
      them and still holds every unread one. */
  ghost predicate Scanned(a: seq<nat>, rels: seq<Rel>, env: Env, i: nat, m: nat) {
    && m <= i <= |rels| && 3 * |rels| <= |a|
    && Entries(a, m) == Pending(rels[..i], env)
    && forall k :: i <= k < |rels| ==> EntryAt(a, k) == rels[k]
  }

  lemma ScanStart(a: seq<nat>, env: Env, n: nat)
    requires 3 * n <= |a|
    ensures Scanned(a, Entries(a, n), env, 0, 0)
  {
  }

  lemma ScanResolved(a: seq<nat>, rels: seq<Rel>, env: Env, i: nat, m: nat)
    requires Scanned(a, rels, env, i, m) && i < |rels| && rels[i].info in env
    ensures Scanned(a, rels, env, i + 1, m)
  {
    assert rels[..i + 1][..i] == rels[..i];
    assert Pending(rels[..i], env) + [] == Pending(rels[..i], env);
  }

  lemma ScanKept(a: seq<nat>, rels: seq<Rel>, env: Env, i: nat, m: nat)
    requires Scanned(a, rels, env, i, m) && i < |rels| && rels[i].info !in env
    ensures Scanned(Store(a, m, rels[i]), rels, env, i + 1, m + 1)
  {
    StoreKeeps(a, m, i, |rels|, rels[i]);
    assert rels[..i + 1][..i] == rels[..i];
  }

  lemma ScanEnd(a: seq<nat>, rels: seq<Rel>, env: Env, m: nat)
    requires Scanned(a, rels, env, |rels|, m)
    ensures 3 * m <= |a| && m <= |rels| && Entries(a, m) == Pending(rels, env)
  {
    assert rels[..|rels|] == rels;
  }

  lemma AppliedStep(rels: seq<Rel>, env: Env, base: nat, words: map<nat, nat>, i: nat)
    requires i < |rels|
    ensures var w, r := Applied(rels[..i], env, base, words), rels[i];
            Applied(rels[..i + 1], env, base, words) ==
            if r.info in env then w[base + r.offset := (env[r.info] + r.addend) % W] else w
  {
    assert rels[..i + 1][..i] == rels[..i];
  }

  method StoreEntry(a: array<nat>, m: nat, offset: nat, info: nat, addend: nat)
    requires 3 * m + 2 < a.Length
    modifies a
    ensures a[..] == Store(old(a[..]), m, Rel(offset, info, addend))
  {
    a[3 * m] := offset;
    a[3 * m + 1] := info;
    a[3 * m + 2] := addend;
  }

  /** `do_relocs` on an object's own deferred array, whose count has been reset. */
  method DoRelocs(dso: Dso, count: nat, env: Env, mem: Memory, ghost rels: seq<Rel>)
    requires dso.lazy != null && dso.lazyCnt == 0 && 3 * count <= dso.lazy.Length
    requires rels == Entries(dso.lazy[..], count)
    modifies dso`lazyCnt, dso.lazy, mem
    ensures 3 * dso.lazyCnt <= dso.lazy.Length
    ensures Entries(dso.lazy[..], dso.lazyCnt) == Pending(rels, env)
    ensures mem.words == Applied(rels, env, dso.base, old(mem.words))
  {
    hide Entries, Pending, Applied, Store;
    var rel := dso.lazy;
    ScanStart(rel[..], env, count);
    AppliedNone(rels, env, dso.base, mem.words);
    var i := 0;
    while i < count
      invariant dso.lazy == rel && i <= count == |rels|
      invariant Scanned(rel[..], rels, env, i, dso.lazyCnt)
      invariant mem.words == Applied(rels[..i], env, dso.base, old(mem.words))
    {
      assert EntryAt(rel[..], i) == rels[i];
      AppliedStep(rels, env, dso.base, old(mem.words), i);
      var offset, info, addend := rel[3 * i], rel[3 * i + 1], rel[3 * i + 2];
      if info in env {
        ScanResolved(rel[..], rels, env, i, dso.lazyCnt);
        mem.words := mem.words[dso.base + offset := (env[info] + addend) % W];
      } else {
        ScanKept(rel[..], rels, env, i, dso.lazyCnt);
        StoreEntry(dso.lazy, dso.lazyCnt, offset, info, addend);
        dso.lazyCnt := dso.lazyCnt + 1;
      }
      i := i + 1;
    }
    ScanEnd(rel[..], rels, env, dso.lazyCnt);
    assert rels[..count] == rels;
  }

  lemma AppliedNone(rels: seq<Rel>, env: Env, base: nat, words: map<nat, nat>)
    ensures Applied(rels[..0], env, base, words) == words
  {
  }

  // ----- The list of objects with deferred entries -----

  function NodeAt(list: seq<Dso>, k: nat): Dso? {
    if k < |list| then list[k] else null
  }

  /** From position `i` on, the `lazyNext` fields link the list, which `p` continues. */
  ghost predicate Chain(p: Dso?, list: seq<Dso>, i: nat)
    reads Members(list)`lazyNext
  {
    p == NodeAt(list, i) && forall k :: i <= k < |list| ==> list[k].lazyNext == NodeAt(list, k + 1)
  }

  /** The positions of the objects with entries left, last processed first. */
  function Kept(tables: seq<Deferred>): (r: seq<nat>)
    ensures forall m :: 0 <= m < |r| ==> r[m] < |tables|
  {
    if tables == [] then []
    else
      var n := |tables| - 1;
      (if Left(tables[n]) != [] then [n] else []) + Kept(tables[..n])
  }

  /** The objects at the positions `kept`. */
  function Select(list: seq<Dso>, kept: seq<nat>): (r: seq<Dso>)
    requires forall m :: 0 <= m < |kept| ==> kept[m] < |list|
    ensures |r| == |kept| && forall m :: 0 <= m < |r| ==> r[m] == list[kept[m]]
  {
    seq(|kept|, m requires 0 <= m < |kept| => list[kept[m]])
  }

  function AppliedAll(bases: seq<nat>, tables: seq<Deferred>, words: map<nat, nat>): map<nat, nat>
    requires |bases| == |tables|
  {
    if bases == [] then words
    else
      var n := |bases| - 1;
      Applied(tables[n].rels, tables[n].env, bases[n], AppliedAll(bases[..n], tables[..n], words))
  }

  /** The fields of an object that the code reads or writes, and the contents of its array. */
  datatype Fields = Fields(lazy: array?<nat>, cnt: nat, next: Dso?, base: nat, words: seq<nat>)

  ghost predicate HasFields(d: Dso, a: array<nat>, f: Fields)
    reads d`lazy, d`lazyCnt, d`lazyNext, d`base, a
  {
    d.lazy == f.lazy && d.lazyCnt == f.cnt && d.lazyNext == f.next && d.base == f.base && a[..] == f.words
  }

  ghost predicate AllFields(list: seq<Dso>, arrays: seq<array<nat>>, fields: seq<Fields>)
    reads Members(list)`lazy, Members(list)`lazyCnt, Members(list)`lazyNext, Members(list)`base, arrays
  {
    |list| == |arrays| == |fields| && forall k :: 0 <= k < |list| ==> HasFields(list[k], arrays[k], fields[k])
  }

  /** The object holds `rels` in its array `a`. */
  ghost predicate Waiting(f: Fields, a: array<nat>, rels: seq<Rel>) {
    f.lazy == a && 3 * f.cnt <= |f.words| && Entries(f.words, f.cnt) == rels
  }

  /** The object has been processed: put back with what is left, or released. */
  ghost predicate Processed(f: Fields, a: array<nat>, rels: seq<Rel>) {
    if rels != [] then Waiting(f, a, rels) else f.lazy == null && f.cnt == 0 && f.next == null
  }

  /** Objects before `i` are processed and the others wait. */
  ghost predicate Halfway(fields: seq<Fields>, arrays: seq<array<nat>>, tables: seq<Deferred>, i: nat) {
    && |fields| == |arrays| == |tables|
    && (forall k :: 0 <= k < |fields| && k < i ==> Processed(fields[k], arrays[k], Left(tables[k])))
    && (forall k :: i <= k < |fields| ==> Waiting(fields[k], arrays[k], tables[k].rels))
  }

  function Bases(fields: seq<Fields>): seq<nat> {
    seq(|fields|, k requires 0 <= k < |fields| => fields[k].base)
  }

  /** One object: its entries are processed, and it goes back on the list if some are left. */
  method RedoOne(p: Dso, lazyHead: Dso?, env: Env, mem: Memory, ghost a: array<nat>, ghost f: Fields, ghost rels: seq<Rel>, ghost kept: seq<Dso>)
    returns (newHead: Dso?, ghost f': Fields)
    requires HasFields(p, a, f) && Waiting(f, a, rels) && Chain(lazyHead, kept, 0) && p !in kept
    modifies p`lazy, p`lazyCnt, p`lazyNext, a, mem
    ensures HasFields(p, a, f') && f'.base == f.base && Processed(f', a, Pending(rels, env))
    ensures mem.words == Applied(rels, env, f.base, old(mem.words))
    ensures Chain(newHead, (if Pending(rels, env) != [] then [p] else []) + kept, 0)
  {
    hide Entries, Pending, Applied;
    var count := p.lazyCnt;
    p.lazyCnt := 0;
    DoRelocs(p, count, env, mem, rels);
    EntriesCount(p.lazy[..], p.lazyCnt);
    if p.lazyCnt != 0 {
      p.lazyNext := lazyHead;
      newHead := p;
    } else {
      p.lazy := null;
      p.lazyNext := null;
      newHead := lazyHead;
      assert [] + kept == kept;
    }
    f' := Fields(p.lazy, p.lazyCnt, p.lazyNext, p.base, a[..]);
  }

  lemma EntriesCount(a: seq<nat>, n: nat)
    requires 3 * n <= |a|
    ensures n == 0 <==> Entries(a, n) == []
  {
  }

  /** The loop body: the object at position `i`, the others being left as they are. */
  method RedoAt(p: Dso, lazyHead: Dso?, env: Env, mem: Memory, ghost i: nat, ghost list: seq<Dso>, ghost arrays: seq<array<nat>>,
                ghost fields0: seq<Fields>, ghost rels: seq<Rel>, ghost kept: seq<Dso>)
    returns (next: Dso?, newHead: Dso?, ghost fields: seq<Fields>)
    requires AllFields(list, arrays, fields0) && Distinct(list) && Distinct(arrays) && Chain(p, list, i)
    requires i < |list| && Waiting(fields0[i], arrays[i], rels) && Chain(lazyHead, kept, 0) && p !in kept
    modifies mem, p`lazy, p`lazyCnt, p`lazyNext, arrays[i]
    ensures Chain(next, list, i + 1)
    ensures AllFields(list, arrays, fields) && fields == fields0[i := fields[i]] && fields[i].base == fields0[i].base
    ensures Processed(fields[i], arrays[i], Pending(rels, env))
    ensures mem.words == Applied(rels, env, fields0[i].base, old(mem.words))
    ensures Chain(newHead, (if Pending(rels, env) != [] then [p] else []) + kept, 0)
  {
    hide Pending, Applied, Entries, Processed, Waiting;
    next := p.lazyNext;
    ghost var f';
    newHead, f' := RedoOne(p, lazyHead, env, mem, arrays[i], fields0[i], rels, kept);
    fields := fields0[i := f'];
  }

  /** `redo_lazy_relocs`. */
  method RedoLazyRelocs(head: Dso?, symbols: map<Dso, Env>, mem: Memory, ghost list: seq<Dso>, ghost arrays: seq<array<nat>>,
                        ghost fields0: seq<Fields>, ghost tables: seq<Deferred>)
    returns (lazyHead: Dso?, ghost fields: seq<Fields>)
    requires Distinct(list) && Distinct(arrays) && Chain(head, list, 0)
    requires AllFields(list, arrays, fields0) && Halfway(fields0, arrays, tables, 0)
    requires forall k :: 0 <= k < |tables| && k < |list| ==> list[k] in symbols && symbols[list[k]] == tables[k].env
    modifies mem, Members(list)`lazy, Members(list)`lazyCnt, Members(list)`lazyNext, arrays
    ensures mem.words == AppliedAll(Bases(fields0), tables, old(mem.words))
    ensures AllFields(list, arrays, fields) && Halfway(fields, arrays, tables, |list|)
    ensures Chain(lazyHead, Select(list, Kept(tables)), 0)
  {
    hide Pending, Applied, AppliedAll, Kept, Entries, Select, Halfway, AllFields, Bases, Chain, Distinct, Processed, Waiting;
    var p := head;
    lazyHead := null;
    fields := fields0;
    ghost var i, bases := 0, Bases(fields0);
    HalfwayAt(list, arrays, fields, tables, 0);
    StartAll(bases, tables, mem.words);
    SelectNone(list);
    ChainNone();
    while p != null
      invariant i <= |list| && Chain(p, list, i)
      invariant AllFields(list, arrays, fields) && Halfway(fields, arrays, tables, i) && Bases(fields) == bases
      invariant Chain(lazyHead, Select(list, Kept(tables[..i])), 0)
      invariant mem.words == AppliedAll(bases[..i], tables[..i], old(mem.words))
      decreases |list| - i
    {
      ChainAt(p, list, i);
      HalfwayAt(list, arrays, fields, tables, i);
      StepAll(bases, tables, old(mem.words), i);
      SelectStep(list, Kept(tables[..i]), i);
      ghost var before := fields;
      p, lazyHead, fields := RedoAt(p, lazyHead, symbols[p], mem, i, list, arrays, before, tables[i].rels, Select(list, Kept(tables[..i])));
      HalfwayStep(before, fields, arrays, tables, i);
      i := i + 1;
    }
    ChainAt(p, list, i);
    assert tables[..i] == tables && bases[..i] == bases;
  }

  lemma ChainNone()
    ensures Chain(null, [], 0)
  {
  }

  lemma ChainAt(p: Dso?, list: seq<Dso>, i: nat)
    requires Chain(p, list, i)
    ensures i < |list| ==> p == list[i]
    ensures p == null <==> i >= |list|
  {
  }

  lemma HalfwayAt(list: seq<Dso>, arrays: seq<array<nat>>, fields: seq<Fields>, tables: seq<Deferred>, i: nat)
    requires AllFields(list, arrays, fields) && Halfway(fields, arrays, tables, i)
    ensures |list| == |arrays| == |fields| == |tables| == |Bases(fields)|
    ensures i < |list| ==> Waiting(fields[i], arrays[i], tables[i].rels) && Bases(fields)[i] == fields[i].base
  {
  }

  lemma HalfwayStep(fields: seq<Fields>, fields': seq<Fields>, arrays: seq<array<nat>>, tables: seq<Deferred>, i: nat)
    requires Halfway(fields, arrays, tables, i) && i < |fields| == |fields'|
    requires fields' == fields[i := fields'[i]] && Processed(fields'[i], arrays[i], Left(tables[i])) && fields'[i].base == fields[i].base
    ensures Halfway(fields', arrays, tables, i + 1) && Bases(fields') == Bases(fields)
  {
  }

  lemma StartAll(bases: seq<nat>, tables: seq<Deferred>, words: map<nat, nat>)
    requires |bases| == |tables|
    ensures AppliedAll(bases[..0], tables[..0], words) == words && Kept(tables[..0]) == []
  {
  }

  lemma StepAll(bases: seq<nat>, tables: seq<Deferred>, words: map<nat, nat>, i: nat)
    requires |bases| == |tables| && i < |tables|
    ensures AppliedAll(bases[..i + 1], tables[..i + 1], words)
         == Applied(tables[i].rels, tables[i].env, bases[i], AppliedAll(bases[..i], tables[..i], words))
    ensures Kept(tables[..i + 1]) == (if Left(tables[i]) != [] then [i] else []) + Kept(tables[..i])
  {
    assert bases[..i + 1][..i] == bases[..i] && tables[..i + 1][..i] == tables[..i];
  }

  lemma SelectNone(list: seq<Dso>)
    ensures Select(list, []) == []
  {
  }

  lemma SelectStep(list: seq<Dso>, kept: seq<nat>, i: nat)
    requires Distinct(list) && i < |list| && forall m :: 0 <= m < |kept| ==> kept[m] < i
    ensures list[i] !in Select(list, kept)
    ensures Select(list, [i] + kept) == [list[i]] + Select(list, kept)
    ensures Select(list, [] + kept) == [] + Select(list, kept)
  {
  }

  // ----- What is left and what was applied -----

  /** The entries left are exactly the unresolved ones. */
  lemma {:induction false} PendingExact(rels: seq<Rel>, env: Env)
    ensures forall r :: r in Pending(rels, env) <==> r in rels && r.info !in env
  {
    if rels != [] {
      PendingExact(rels[..|rels| - 1], env);
      assert rels == rels[..|rels| - 1] + [rels[|rels| - 1]];
    }
  }

  /** They keep their order: filtering distributes over concatenation. */
  lemma {:induction false} PendingConcat(rels: seq<Rel>, more: seq<Rel>, env: Env)
    ensures Pending(rels + more, env) == Pending(rels, env) + Pending(more, env)
    decreases |more|
  {
    if more == [] {
      assert rels + more == rels;
      PendingNone(env);
      assert Pending(rels, env) + [] == Pending(rels, env);
    } else {
      hide Pending;
      var rest, last := more[..|more| - 1], more[|more| - 1];
      PendingConcat(rels, rest, env);
      PendingLast(rels + rest, last, env);
      PendingLast(rest, last, env);
      assert more == rest + [last] && rels + more == rels + rest + [last];
    }
  }

  lemma PendingNone(env: Env)
    ensures Pending([], env) == []
  {
  }

  lemma PendingLast(rels: seq<Rel>, r: Rel, env: Env)
    ensures Pending(rels + [r], env) == Pending(rels, env) + if r.info in env then [] else [r]
  {
    assert (rels + [r])[..|rels|] == rels;
  }

  /** A resolved entry's word holds symbol plus addend unless a later resolved entry has the same address. */
  lemma {:induction false} AppliedValue(rels: seq<Rel>, env: Env, base: nat, words: map<nat, nat>, i: nat)
    requires i < |rels| && rels[i].info in env
    requires forall j :: i < j < |rels| && rels[j].info in env ==> rels[j].offset != rels[i].offset
    ensures var a := base + rels[i].offset;
            a in Applied(rels, env, base, words) && Applied(rels, env, base, words)[a] == (env[rels[i].info] + rels[i].addend) % W
    decreases |rels|
  {
    if i < |rels| - 1 {
      AppliedValue(rels[..|rels| - 1], env, base, words, i);
    }
  }

  /** No other word changes. */
  lemma {:induction false} AppliedElsewhere(rels: seq<Rel>, env: Env, base: nat, words: map<nat, nat>, a: nat)
    requires forall j :: 0 <= j < |rels| && rels[j].info in env ==> base + rels[j].offset != a
    ensures a in Applied(rels, env, base, words) <==> a in words
    ensures a in words ==> Applied(rels, env, base, words)[a] == words[a]
    decreases |rels|
  {
    if rels != [] {
      AppliedElsewhere(rels[..|rels| - 1], env, base, words, a);
    }
  }

  /** An object is relinked exactly when some of its entries are left, once. */
  lemma {:induction false} KeptExact(tables: seq<Deferred>)
    ensures forall k: nat :: k in Kept(tables) <==> k < |tables| && Left(tables[k]) != []
    ensures forall i, j :: 0 <= i < j < |Kept(tables)| ==> Kept(tables)[i] > Kept(tables)[j]
    decreases |tables|
  {
    hide Left;
    if tables != [] {
      KeptExact(tables[..|tables| - 1]);
    }
  }
}
