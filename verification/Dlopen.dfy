/** The part of `dlopen` that may fail: whatever has been loaded, made global or queued when
    it does, the cleanup after `setjmp` restores the loader's lists and counters. */
module Dlopen {
  import opened Sequences
  import opened Dsos

  /** Offset and alignment of the thread-local storage after a module has been added. */
  datatype TlsChange = TlsChange(offset: nat, align: nat)

  /** What a call does between saving the state and failing: load one more object, make a loaded
      object's symbols global, or queue a newly loaded object's lazy relocations. */
  datatype Action = Load(tls: Option<TlsChange>) | MakeGlobal(k: nat) | Queue(k: nat)

  /** How many objects a script loads. */
  function Loads(script: seq<Action>): nat {
    if script == [] then 0
    else Loads(script[..|script| - 1]) + if script[|script| - 1].Load? then 1 else 0
  }

  // ----- The lists on values -----

  type Links = map<Dso, Dso?>

  /** The loaded objects, those with global symbols, those with thread-local storage, and the
      fields that link them. */
  datatype View = View(dsos: seq<Dso>, syms: seq<Dso>, tls: seq<Dso>,
                       next: Links, symsNext: Links, tlsNext: Links, lazyNext: Links)

  function At(list: seq<Dso>, k: int): Dso? {
    if 0 <= k < |list| then list[k] else null
  }

  function Last(list: seq<Dso>): Dso? {
    At(list, |list| - 1)
  }

  /** The links run through `list` and end, and no other object has a link. */
  ghost predicate Linked(links: Links, list: seq<Dso>) {
    && Distinct(list) && Members(list) <= links.Keys
    && (forall k :: 0 <= k < |list| ==> links[list[k]] == At(list, k + 1))
    && (forall d :: d in links && d !in list ==> links[d] == null)
  }

  ghost predicate Consistent(v: View) {
    && v.dsos != [] && v.syms != []
    && v.next.Keys == v.symsNext.Keys == v.tlsNext.Keys == v.lazyNext.Keys == Members(v.dsos)
    && Linked(v.next, v.dsos) && Linked(v.symsNext, v.syms) && Linked(v.tlsNext, v.tls)
  }

  /** Appending at the tail, as all three lists do. */
  function Append(links: Links, list: seq<Dso>, p: Dso): Links {
    if list == [] then links[p := null] else links[p := null][list[|list| - 1] := p]
  }

  lemma LinkedAppend(links: Links, list: seq<Dso>, p: Dso)
    requires Linked(links, list) && p !in list
    ensures Linked(Append(links, list, p), list + [p])
    ensures Append(links, list, p).Keys == links.Keys + {p}
  {
    hide Distinct;
    DistinctAppend(list, p);
    var links', list' := Append(links, list, p), list + [p];
    forall k | 0 <= k < |list'| ensures list'[k] in links' && links'[list'[k]] == At(list', k + 1) {
      if k < |list| - 1 {
        assert list[k] in Members(list) && list[k] != list[|list| - 1] by { DistinctAt(list, k, |list| - 1); }
        assert links[list[k]] == At(list, k + 1);
      }
    }
  }

  lemma LinkedBasics(links: Links, list: seq<Dso>)
    requires Linked(links, list)
    ensures Distinct(list) && Members(list) <= links.Keys
  {
    hide Distinct, Members;
  }

  lemma LinkedMore(links: Links, list: seq<Dso>, p: Dso)
    requires Linked(links, list) && p !in links
    ensures Linked(links[p := null], list)
  {
    hide Distinct;
  }

  lemma DistinctAt(list: seq<Dso>, i: nat, j: nat)
    requires Distinct(list) && i < j < |list|
    ensures list[i] != list[j]
  {
  }

  /** Cutting a list back to a prefix: the links of the prefix are what they were. */
  lemma CutBack(before: Links, list: seq<Dso>, after: Links, longer: seq<Dso>, d: Dso)
    requires Linked(before, list) && Linked(after, longer) && list <= longer && d in before && d in after
    ensures d in list && d != Last(list) ==> after[d] == before[d]
    ensures d !in list || d == Last(list) ==> before[d] == null
    ensures d !in longer ==> after[d] == null
  {
  }

  ghost predicate Mirrors(v: View)
    reads Members(v.dsos)`next, Members(v.dsos)`symsNext, Members(v.dsos)`tlsNext, Members(v.dsos)`lazyNext
  {
    forall d :: d in Members(v.dsos) ==>
      && d in v.next && d in v.symsNext && d in v.tlsNext && d in v.lazyNext
      && d.next == v.next[d] && d.symsNext == v.symsNext[d] && d.tlsNext == v.tlsNext[d] && d.lazyNext == v.lazyNext[d]
  }

  /** Views after a new object has been given its place. */
  function AfterLoad(v: View, p: Dso, withTls: bool): View {
    View(v.dsos + [p], v.syms, if withTls then v.tls + [p] else v.tls,
         Append(v.next, v.dsos, p), v.symsNext[p := null],
         if withTls then Append(v.tlsNext, v.tls, p) else v.tlsNext[p := null], v.lazyNext[p := null])
  }

  lemma ConsistentMembers(v: View)
    requires Consistent(v)
    ensures v.dsos != [] && v.syms != []
    ensures Last(v.dsos) in Members(v.dsos) && Last(v.syms) in Members(v.dsos)
    ensures v.tls != [] ==> Last(v.tls) in Members(v.dsos)
    ensures forall d :: d in v.syms || d in v.tls ==> d in v.dsos
  {
  }

  lemma AfterLoadConsistent(v: View, p: Dso, withTls: bool)
    requires Consistent(v) && p !in v.dsos
    ensures Consistent(AfterLoad(v, p, withTls))
  {
    ConsistentMembers(v);
    LoadedLinks(v, p, withTls);
    hide Linked, Append;
    MembersAppend(v.dsos, p);
  }

  lemma LoadedLinks(v: View, p: Dso, withTls: bool)
    requires Consistent(v) && p !in v.dsos && p !in v.tls
    ensures var w := AfterLoad(v, p, withTls);
            && Linked(w.next, w.dsos) && Linked(w.symsNext, w.syms) && Linked(w.tlsNext, w.tls)
            && w.next.Keys == w.symsNext.Keys == w.tlsNext.Keys == w.lazyNext.Keys == v.next.Keys + {p}
  {
    hide Linked, Append;
    assert p !in Members(v.dsos);
    LinkedAppend(v.next, v.dsos, p);
    LinkedMore(v.symsNext, v.syms, p);
    if withTls { LinkedAppend(v.tlsNext, v.tls, p); } else { LinkedMore(v.tlsNext, v.tls, p); }
  }

  // ----- Writes to one object, in the heap and in the view -----

  function WithNext(v: View, d: Dso, to: Dso?): View { v.(next := v.next[d := to]) }
  function WithSymsNext(v: View, d: Dso, to: Dso?): View { v.(symsNext := v.symsNext[d := to]) }
  function WithTlsNext(v: View, d: Dso, to: Dso?): View { v.(tlsNext := v.tlsNext[d := to]) }
  function WithLazyNext(v: View, d: Dso, to: Dso?): View { v.(lazyNext := v.lazyNext[d := to]) }
  function WithNew(v: View, p: Dso): View {
    View(v.dsos + [p], v.syms, v.tls, v.next[p := null], v.symsNext[p := null], v.tlsNext[p := null], v.lazyNext[p := null])
  }

  method SetNext(d: Dso, to: Dso?, ghost v: View)
    requires Mirrors(v) && d in v.dsos
    modifies d`next
    ensures Mirrors(WithNext(v, d, to))
  {
    d.next := to;
  }

  method SetSymsNext(d: Dso, to: Dso?, ghost v: View)
    requires Mirrors(v) && d in v.dsos
    modifies d`symsNext
    ensures Mirrors(WithSymsNext(v, d, to))
  {
    d.symsNext := to;
  }

  method SetTlsNext(d: Dso, to: Dso?, ghost v: View)
    requires Mirrors(v) && d in v.dsos
    modifies d`tlsNext
    ensures Mirrors(WithTlsNext(v, d, to))
  {
    d.tlsNext := to;
  }

  method SetLazyNext(d: Dso, to: Dso?, ghost v: View)
    requires Mirrors(v) && d in v.dsos
    modifies d`lazyNext
    ensures Mirrors(WithLazyNext(v, d, to))
  {
    d.lazyNext := to;
  }

  method NewDso(ghost v: View) returns (p: Dso)
    requires Mirrors(v)
    ensures fresh(p) && p !in v.dsos && Mirrors(WithNew(v, p))
  {
    p := new Dso([]);
    MembersAppend(v.dsos, p);
  }

  /** The view after a new object and its module, before the object is linked. */
  function WithModule(v: View, p: Dso): View {
    var w := WithNew(v, p);
    var linked := if v.tls == [] then w else WithTlsNext(w, v.tls[|v.tls| - 1], p);
    linked.(tls := v.tls + [p])
  }

  lemma LoadParts(v: View, p: Dso)
    requires Consistent(v) && p !in v.dsos
    ensures AfterLoad(v, p, false) == WithNext(WithNew(v, p), v.dsos[|v.dsos| - 1], p)
    ensures AfterLoad(v, p, true) == WithNext(WithModule(v, p), v.dsos[|v.dsos| - 1], p)
    ensures WithNew(v, p).dsos == v.dsos + [p] == WithModule(v, p).dsos
    ensures forall withTls :: var w := AfterLoad(v, p, withTls);
      Last(w.dsos) == p && w.syms == v.syms && w.tls == if withTls then v.tls + [p] else v.tls
  {
  }

  /** The loader's static variables. */
  datatype Statics = Statics(head: Dso, tail: Dso, symsTail: Dso, tlsHead: Dso?, tlsTail: Dso?,
                             tlsCnt: nat, tlsOffset: nat, tlsAlign: nat, lazyHead: Dso?)

  /** The variables point at the ends of the lists. */
  ghost predicate Ends(st: Statics, v: View) {
    && st.head == At(v.dsos, 0) && st.tail == Last(v.dsos) && st.symsTail == Last(v.syms)
    && st.tlsHead == At(v.tls, 0) && st.tlsTail == Last(v.tls)
  }

  /** The counters after an object has been given its place. */
  predicate Counted(before: Statics, change: Option<TlsChange>, after: Statics) {
    && after.lazyHead == before.lazyHead
    && after.tlsCnt == (if change.Some? then before.tlsCnt + 1 else before.tlsCnt)
    && after.tlsOffset == (if change.Some? then change.value.offset else before.tlsOffset)
    && after.tlsAlign == (if change.Some? then change.value.align else before.tlsAlign)
  }

  lemma ModuleParts(v: View, p: Dso)
    requires Consistent(v)
    ensures WithNew(v, p).dsos == v.dsos + [p]
    ensures Last(v.tls) == null ==>
              WithModule(v, p) == WithNew(v, p).(tls := v.tls + [p]) && At(v.tls + [p], 0) == p
    ensures Last(v.tls) != null ==>
              && At(v.tls + [p], 0) == At(v.tls, 0) && Last(v.tls) in v.dsos
              && WithModule(v, p) == WithTlsNext(WithNew(v, p), Last(v.tls), p).(tls := v.tls + [p])
  {
  }

  lemma MirrorsTls(v: View, tls: seq<Dso>)
    requires Mirrors(v)
    ensures Mirrors(v.(tls := tls))
  {
  }

  /** The module of a new object `p`, appended to the list of modules. */
  method AddModule(st: Statics, p: Dso, change: TlsChange, ghost v: View) returns (st': Statics)
    requires Consistent(v) && p !in v.dsos && Mirrors(WithNew(v, p)) && Ends(st, v)
    modifies Members(v.dsos)`tlsNext
    ensures Mirrors(WithModule(v, p))
    ensures st' == st.(tlsHead := At(v.tls + [p], 0), tlsTail := p, tlsCnt := st.tlsCnt + 1,
                       tlsOffset := change.offset, tlsAlign := change.align)
  {
    ConsistentMembers(v);
    ModuleParts(v, p);
    hide Mirrors, Consistent, WithNew, WithTlsNext, WithModule, At, Last;
    var tlsHead := st.tlsHead;
    if st.tlsTail != null {
      SetTlsNext(st.tlsTail, p, WithNew(v, p));
      MirrorsTls(WithTlsNext(WithNew(v, p), st.tlsTail, p), v.tls + [p]);
    } else {
      tlsHead := p;
      MirrorsTls(WithNew(v, p), v.tls + [p]);
    }
    st' := st.(tlsHead := tlsHead, tlsTail := p, tlsCnt := st.tlsCnt + 1, tlsOffset := change.offset, tlsAlign := change.align);
  }

  lemma EndsAfterLoad(st: Statics, v: View, p: Dso)
    requires Consistent(v) && Ends(st, v)
    ensures st.tail in v.dsos && st.tail in Members(v.dsos) && v.dsos != [] && st.tail == v.dsos[|v.dsos| - 1]
    ensures Ends(st.(tail := p), AfterLoad(v, p, false))
    ensures forall cnt, offset, align ::
      Ends(st.(tlsHead := At(v.tls + [p], 0), tlsTail := p, tlsCnt := cnt, tlsOffset := offset, tlsAlign := align).(tail := p), AfterLoad(v, p, true))
  {
    hide Linked;
  }

  /** The end of `load_library` for the new object `p`. */
  method Place(st: Statics, p: Dso, change: Option<TlsChange>, ghost v: View) returns (st': Statics)
    requires Consistent(v) && p !in v.dsos && Mirrors(WithNew(v, p)) && Ends(st, v)
    modifies Members(v.dsos)`next, Members(v.dsos)`tlsNext
    ensures Mirrors(AfterLoad(v, p, change.Some?)) && Ends(st', AfterLoad(v, p, change.Some?))
    ensures Counted(st, change, st')
  {
    hide Consistent, Mirrors, AfterLoad, WithNew, WithModule, WithNext, Members, At, Last, Ends;
    ConsistentMembers(v);
    LoadParts(v, p);
    EndsAfterLoad(st, v, p);
    st' := st;
    if change.Some? {
      st' := AddModule(st, p, change.value, v);
      SetNext(st.tail, p, WithModule(v, p));
    } else {
      SetNext(st.tail, p, WithNew(v, p));
    }
    st' := st'.(tail := p);
  }

  // ----- Making symbols global, and reverting that -----

  function AfterSyms(v: View, d: Dso): View
    requires v.syms != []
  {
    if d in v.syms then v
    else v.(syms := v.syms + [d], symsNext := v.symsNext[v.syms[|v.syms| - 1] := d])
  }

  /** The test of `add_syms` finds out whether an object is in the list. */
  lemma InList(links: Links, list: seq<Dso>, d: Dso)
    requires Linked(links, list) && list != [] && d in links
    ensures d in list <==> links[d] != null || d == Last(list)
  {
  }

  lemma LinkedGrow(links: Links, list: seq<Dso>, d: Dso)
    requires Linked(links, list) && list != [] && d in links && d !in list
    ensures Linked(links[list[|list| - 1] := d], list + [d])
    ensures links[list[|list| - 1] := d].Keys == links.Keys
  {
  }

  lemma AfterSymsConsistent(v: View, d: Dso)
    requires Consistent(v) && d in v.dsos
    ensures v.syms != [] && Consistent(AfterSyms(v, d))
    ensures d in v.symsNext && (d in v.syms <==> v.symsNext[d] != null || d == Last(v.syms))
  {
    hide Linked, Last;
    assert d in Members(v.dsos);
    InList(v.symsNext, v.syms, d);
    if d !in v.syms {
      LinkedGrow(v.symsNext, v.syms, d);
    }
  }

  lemma AfterSymsParts(st: Statics, v: View, d: Dso)
    requires Consistent(v) && d in v.dsos && Ends(st, v)
    ensures st.symsTail in v.dsos
    ensures d in v.syms ==> AfterSyms(v, d) == v
    ensures d !in v.syms ==> AfterSyms(v, d) == WithSymsNext(v, st.symsTail, d).(syms := v.syms + [d])
                             && Ends(st.(symsTail := d), AfterSyms(v, d))
  {
    hide Consistent, Linked;
    ConsistentMembers(v);
    assert Last(v.syms) == v.syms[|v.syms| - 1];
  }

  method AddSymsOf(st: Statics, d: Dso, ghost v: View) returns (st': Statics)
    requires Consistent(v) && Mirrors(v) && Ends(st, v) && d in v.dsos
    modifies Members(v.dsos)`symsNext
    ensures Mirrors(AfterSyms(v, d)) && Ends(st', AfterSyms(v, d))
    ensures st' == st.(symsTail := st'.symsTail)
  {
    hide Consistent, Mirrors, AfterSyms, WithSymsNext, Ends, Last;
    AfterSymsConsistent(v, d);
    AfterSymsParts(st, v, d);
    MirrorsAt(d, v);
    st' := st;
    if d.symsNext == null && st.symsTail != d {
      assert d !in v.syms by { LastIs(st, v); }
      SetSymsNext(st.symsTail, d, v);
      MirrorsSyms(WithSymsNext(v, st.symsTail, d), v.syms + [d]);
      st' := st.(symsTail := d);
    } else {
      assert d in v.syms by { LastIs(st, v); }
    }
  }

  lemma LastIs(st: Statics, v: View)
    requires Ends(st, v)
    ensures st.symsTail == Last(v.syms)
  {
  }

  lemma MirrorsSyms(v: View, syms: seq<Dso>)
    requires Mirrors(v)
    ensures Mirrors(v.(syms := syms))
  {
  }

  /** Links with those of `list[i..j]` cleared. */
  function Cleared(links: Links, list: seq<Dso>, i: nat, j: nat): Links
    requires i <= j <= |list|
    decreases j
  {
    if i == j then links else Cleared(links, list, i, j - 1)[list[j - 1] := null]
  }

  lemma {:induction false} ClearedAt(links: Links, list: seq<Dso>, i: nat, j: nat, d: Dso)
    requires i <= j <= |list| && Distinct(list) && Members(list) <= links.Keys
    ensures Cleared(links, list, i, j).Keys == links.Keys
    ensures d in links ==> Cleared(links, list, i, j)[d] == if d in list[i..j] then null else links[d]
    decreases j
  {
    if i < j {
      ClearedAt(links, list, i, j - 1, d);
      assert list[i..j] == list[i..j - 1] + [list[j - 1]];
      assert list[j - 1] in Members(list);
    }
  }

  function WithSymsLinks(v: View, links: Links): View { v.(symsNext := links) }

  /** The view when the entries `i .. j - 1` of the symbol list have been cleared. */
  function Reverted(v: View, i: nat, j: nat): View
    requires i <= j <= |v.syms|
  {
    WithSymsLinks(v, Cleared(v.symsNext, v.syms, i, j))
  }

  /** `revert_syms` from the entry at position `i`. */
  method RevertSyms(oldTail: Dso, ghost v: View, ghost i: nat)
    requires Consistent(v) && Mirrors(v) && i < |v.syms| && v.syms[i] == oldTail
    modifies Members(v.dsos)`symsNext
    ensures Mirrors(Reverted(v, i, |v.syms|))
  {
    hide Mirrors, Consistent, Reverted, WithSymsNext;
    ConsistentMembers(v);
    RevertedNone(v, i);
    var p: Dso? := oldTail;
    ghost var j := i;
    while p != null
      invariant i <= j <= |v.syms| && p == At(v.syms, j)
      invariant Mirrors(Reverted(v, i, j))
      decreases |v.syms| - j
    {
      NextSym(v, i, j);
      MirrorsAt(p, Reverted(v, i, j));
      var next := p.symsNext;
      SetSymsNext(p, null, Reverted(v, i, j));
      p := next;
      j := j + 1;
    }
  }

  lemma RevertedNone(v: View, i: nat)
    requires i <= |v.syms|
    ensures Reverted(v, i, i) == v
  {
  }

  /** The next entry's link is still there when the loop reads it. */
  lemma NextSym(v: View, i: nat, j: nat)
    requires Consistent(v) && i <= j < |v.syms|
    ensures v.syms[j] in Reverted(v, i, j).dsos
    ensures v.syms[j] in Reverted(v, i, j).symsNext && Reverted(v, i, j).symsNext[v.syms[j]] == At(v.syms, j + 1)
    ensures WithSymsNext(Reverted(v, i, j), v.syms[j], null) == Reverted(v, i, j + 1)
  {
    ConsistentMembers(v);
    ClearedAt(v.symsNext, v.syms, i, j, v.syms[j]);
    assert v.syms[j] in Members(v.syms);
    assert v.syms[j] !in v.syms[i..j];
  }

  lemma MirrorsAt(d: Dso, v: View)
    requires Mirrors(v) && d in v.dsos
    ensures d in v.symsNext && d.symsNext == v.symsNext[d]
  {
  }

  // ----- What every step keeps until the call fails -----

  /** Lists grow at their ends, only by new objects where modules are concerned. */
  ghost predicate Grows(v0: View, v: View) {
    && v0.dsos <= v.dsos && v0.syms <= v.syms && v0.tls <= v.tls
    && (forall k :: |v0.tls| <= k < |v.tls| ==> v.tls[k] !in v0.dsos)
    && (forall d :: d in v0.lazyNext ==> d in v.lazyNext && v.lazyNext[d] == v0.lazyNext[d])
  }

  /** `v` is reached from `v0` by steps that only add at the ends of the lists. */
  ghost predicate Extends(v0: View, v: View) {
    Consistent(v0) && Consistent(v) && Grows(v0, v)
  }

  lemma ExtendsLoad(v0: View, v: View, p: Dso, withTls: bool)
    requires Extends(v0, v) && p !in v.dsos
    ensures Extends(v0, AfterLoad(v, p, withTls))
  {
    AfterLoadConsistent(v, p, withTls);
    NewKeys(v, p);
    GrowsLoad(v0, v, p, withTls);
    hide Consistent, Grows, AfterLoad;
  }

  lemma GrowsLoad(v0: View, v: View, p: Dso, withTls: bool)
    requires Grows(v0, v) && p !in v.dsos && p !in v.lazyNext
    ensures Grows(v0, AfterLoad(v, p, withTls))
  {
  }

  lemma NewKeys(v: View, p: Dso)
    requires Consistent(v) && p !in v.dsos
    ensures p !in v.lazyNext
  {
  }

  lemma ExtendsSyms(v0: View, v: View, d: Dso)
    requires Extends(v0, v) && d in v.dsos
    ensures v.syms != [] && Extends(v0, AfterSyms(v, d))
  {
    AfterSymsConsistent(v, d);
    GrowsSyms(v0, v, d);
    hide Consistent, Grows, AfterSyms;
  }

  lemma GrowsSyms(v0: View, v: View, d: Dso)
    requires Grows(v0, v) && v.syms != []
    ensures Grows(v0, AfterSyms(v, d))
  {
  }

  lemma ExtendsLazy(v0: View, v: View, d: Dso, to: Dso?)
    requires Extends(v0, v) && d in v.dsos && d !in v0.dsos
    ensures Extends(v0, WithLazyNext(v, d, to))
  {
    LazyKeys(v, d, to);
    NewKeys(v0, d);
    hide Consistent;
  }

  lemma LazyKeys(v: View, d: Dso, to: Dso?)
    requires Consistent(v) && d in v.dsos
    ensures Consistent(WithLazyNext(v, d, to))
  {
    hide Linked;
    assert d in Members(v.dsos);
  }

  // ----- The cleanup -----

  function WithTail(v: View, tail: Dso?): View {
    if tail == null then v else WithTlsNext(v, tail, null)
  }

  /** The view of all objects when the cleanup has written to them. */
  function Cleaned(v0: View, v: View): View
    requires v0.syms != [] && v0.syms <= v.syms && v0.dsos != []
  {
    WithNext(WithTail(Reverted(v, |v0.syms| - 1, |v.syms|), Last(v0.tls)), v0.dsos[|v0.dsos| - 1], null)
  }

  lemma CleanedFields(v0: View, v: View)
    requires v0.syms != [] && v0.syms <= v.syms && v0.dsos != []
    ensures var w := Cleaned(v0, v);
            && w.dsos == v.dsos && w.lazyNext == v.lazyNext
            && w.next == v.next[v0.dsos[|v0.dsos| - 1] := null]
            && w.tlsNext == CutTail(v.tlsNext, Last(v0.tls))
            && w.symsNext == Cleared(v.symsNext, v.syms, |v0.syms| - 1, |v.syms|)
  {
    hide Cleared;
  }

  lemma OldKeys(v0: View, v: View, d: Dso)
    requires Extends(v0, v) && d in v0.dsos
    ensures v0.dsos != [] && v0.syms != [] && v0.syms <= v.syms && v0.dsos <= v.dsos
    ensures d in v0.next && d in v.next && d in v0.symsNext && d in v.symsNext
    ensures d in v0.tlsNext && d in v.tlsNext && d in v0.lazyNext && d in v.lazyNext
    ensures v.lazyNext[d] == v0.lazyNext[d]
    ensures Linked(v0.next, v0.dsos) && Linked(v0.symsNext, v0.syms) && Linked(v.next, v.dsos) && Linked(v.symsNext, v.syms)
  {
    hide Linked;
    assert d in Members(v0.dsos) && d in Members(v.dsos) by { assert d in v.dsos; }
  }

  /** An object that was there before the call has the links it had. */
  lemma CleanedAt(v0: View, v: View, d: Dso)
    requires Extends(v0, v) && d in v0.dsos
    ensures v0.syms != [] && v0.syms <= v.syms && v0.dsos != []
    ensures var w := Cleaned(v0, v);
            && d in v0.next && d in w.next && w.next[d] == v0.next[d]
            && d in v0.lazyNext && d in w.lazyNext && w.lazyNext[d] == v0.lazyNext[d]
  {
    OldKeys(v0, v, d);
    CleanedFields(v0, v);
    CutBack(v0.next, v0.dsos, v.next, v.dsos, d);
    hide Extends, Linked, Cleaned, Cleared;
    assert v.next[v0.dsos[|v0.dsos| - 1] := null][d] == v0.next[d];
  }

  lemma CleanedTls(v0: View, v: View, d: Dso)
    requires Extends(v0, v) && d in v0.dsos
    ensures v0.syms != [] && v0.syms <= v.syms && v0.dsos != []
    ensures var w := Cleaned(v0, v);
            d in v0.tlsNext && d in w.tlsNext && w.tlsNext[d] == v0.tlsNext[d]
  {
    OldKeys(v0, v, d);
    CleanedFields(v0, v);
    CutBackTls(v0, v, d);
    hide Extends, Linked, Cleaned, Cleared, Last, CutTail;
  }

  function CutTail(links: Links, tail: Dso?): Links {
    if tail == null then links else links[tail := null]
  }

  lemma CutBackTls(v0: View, v: View, d: Dso)
    requires Extends(v0, v) && d in v0.tlsNext && d in v.tlsNext && d in v0.dsos
    ensures d in CutTail(v.tlsNext, Last(v0.tls)) && CutTail(v.tlsNext, Last(v0.tls))[d] == v0.tlsNext[d]
  {
    hide Linked, Extends, Last;
    OldModule(v0, v, d);
    CutBack(v0.tlsNext, v0.tls, v.tlsNext, v.tls, d);
  }

  /** Modules added since belong to objects loaded since. */
  lemma OldModule(v0: View, v: View, d: Dso)
    requires Extends(v0, v) && d in v0.dsos
    ensures Linked(v0.tlsNext, v0.tls) && Linked(v.tlsNext, v.tls) && v0.tls <= v.tls
    ensures d in v.tls <==> d in v0.tls
  {
    hide Linked;
    if d in v.tls {
      var k :| 0 <= k < |v.tls| && v.tls[k] == d;
      assert k < |v0.tls| && v0.tls[k] == d;
    }
    if d in v0.tls {
      var k :| 0 <= k < |v0.tls| && v0.tls[k] == d;
      assert v.tls[k] == d;
    }
  }

  lemma CleanedSyms(v0: View, v: View, d: Dso)
    requires Extends(v0, v) && d in v0.dsos
    ensures v0.syms != [] && v0.syms <= v.syms && v0.dsos != []
    ensures var w := Cleaned(v0, v);
            d in v0.symsNext && d in w.symsNext && w.symsNext[d] == v0.symsNext[d]
  {
    hide Extends, Linked, Cleared, Cleaned, Distinct, Members, Last;
    OldKeys(v0, v, d);
    CleanedFields(v0, v);
    CutBack(v0.symsNext, v0.syms, v.symsNext, v.syms, d);
    LinkedBasics(v.symsNext, v.syms);
    ClearedAt(v.symsNext, v.syms, |v0.syms| - 1, |v.syms|, d);
    ClearedTail(v0.syms, v.syms, d);
  }

  /** `revert_syms` clears the last of the old list and everything after it. */
  lemma ClearedTail(short: seq<Dso>, long: seq<Dso>, d: Dso)
    requires short != [] && short <= long && Distinct(long)
    ensures d in long[|short| - 1..|long|] <==> d in long && (d !in short || d == Last(short))
  {
  }

  /** `d` has the same links in both views. */
  ghost predicate SameLinks(v: View, w: View, d: Dso) {
    && d in v.next && d in w.next && w.next[d] == v.next[d]
    && d in v.symsNext && d in w.symsNext && w.symsNext[d] == v.symsNext[d]
    && d in v.tlsNext && d in w.tlsNext && w.tlsNext[d] == v.tlsNext[d]
    && d in v.lazyNext && d in w.lazyNext && w.lazyNext[d] == v.lazyNext[d]
  }

  lemma MirrorsSame(v: View, w: View)
    requires Mirrors(w) && forall d :: d in Members(v.dsos) ==> d in Members(w.dsos) && SameLinks(v, w, d)
    ensures Mirrors(v)
  {
  }

  /** The objects that were there before the call mirror the old view again. */
  lemma CleanedMirrors(v0: View, v: View)
    requires Extends(v0, v) && v0.syms != [] && v0.syms <= v.syms && v0.dsos != []
    requires Mirrors(Cleaned(v0, v))
    ensures Mirrors(v0)
  {
    hide Extends, Mirrors, Cleaned, Members, SameLinks;
    CleanedFields(v0, v);
    forall d | d in Members(v0.dsos) ensures d in Members(v.dsos) && SameLinks(v0, Cleaned(v0, v), d) {
      OldMember(v0, v, d);
      CleanedSame(v0, v, d);
    }
    MirrorsSame(v0, Cleaned(v0, v));
  }

  lemma CleanedSame(v0: View, v: View, d: Dso)
    requires Extends(v0, v) && d in v0.dsos && v0.syms != [] && v0.syms <= v.syms && v0.dsos != []
    ensures SameLinks(v0, Cleaned(v0, v), d)
  {
    hide Extends, Cleaned;
    CleanedAt(v0, v, d);
    CleanedTls(v0, v, d);
    CleanedSyms(v0, v, d);
  }

  lemma OldMember(v0: View, v: View, d: Dso)
    requires Extends(v0, v) && d in Members(v0.dsos)
    ensures d in v0.dsos && d in Members(v.dsos)
  {
    hide Consistent;
    assert d in v.dsos;
  }

  // ----- The writes of the cleanup -----

  lemma ExtendsParts(v0: View, v: View, saved: Statics)
    requires Extends(v0, v) && Ends(saved, v0)
    ensures Consistent(v0) && Consistent(v) && v0.syms != [] && v0.syms <= v.syms && v0.dsos != [] && v0.dsos <= v.dsos
    ensures v.syms[|v0.syms| - 1] == saved.symsTail && v.dsos[|v0.dsos| - 1] == saved.tail
    ensures v0.dsos[|v0.dsos| - 1] == saved.tail && saved.tlsTail == Last(v0.tls)
  {
    hide Linked;
  }

  lemma TailKept(short: seq<Dso>, long: seq<Dso>)
    requires short <= long
    ensures Last(short) == null <==> short == []
    ensures short != [] ==> Last(short) in long
  {
    if short != [] { assert long[|short| - 1] == short[|short| - 1]; }
  }

  lemma SavedTails(v0: View, v: View, saved: Statics)
    requires Extends(v0, v) && Ends(saved, v0)
    ensures saved.tail in v.dsos && (saved.tlsTail != null ==> saved.tlsTail in v.dsos)
  {
    hide Consistent, Last;
    ConsistentMembers(v0);
    ConsistentMembers(v);
    TailKept(v0.dsos, v.dsos);
    TailKept(v0.tls, v.tls);
  }

  /** The variables the cleanup does not save keep or regain their values. */
  lemma Heads(v0: View, v: View, saved: Statics, st: Statics)
    requires Extends(v0, v) && Ends(saved, v0) && Ends(st, v)
    ensures saved.head == st.head
    ensures saved.tlsHead == if saved.tlsTail == null then null else st.tlsHead
  {
    ConsistentMembers(v0);
    hide Consistent;
    assert v.dsos[0] == v0.dsos[0];
    assert v0.tls != [] ==> v.tls[0] == v0.tls[0];
  }

  lemma WithTailDsos(v: View, i: nat, tail: Dso?)
    requires i <= |v.syms|
    ensures Reverted(v, i, |v.syms|).dsos == v.dsos
    ensures WithTail(Reverted(v, i, |v.syms|), tail).dsos == v.dsos
  {
  }

  method ClearTlsTail(tail: Dso?, ghost v: View)
    requires Mirrors(v) && (tail != null ==> tail in v.dsos)
    modifies Members(v.dsos)`tlsNext
    ensures Mirrors(WithTail(v, tail))
  {
    hide Mirrors;
    if tail != null {
      SetTlsNext(tail, null, v);
    }
  }

  /** The links the cleanup after a failure writes. */
  method ClearLinks(saved: Statics, ghost v0: View, ghost v: View)
    requires Extends(v0, v) && Mirrors(v) && Ends(saved, v0)
    modifies Members(v.dsos)`next, Members(v.dsos)`symsNext, Members(v.dsos)`tlsNext
    ensures Mirrors(v0)
  {
    hide Mirrors, Extends, Consistent, Ends, Last, At, Reverted, WithTail, WithNext;
    ExtendsParts(v0, v, saved);
    SavedTails(v0, v, saved);
    ghost var i := |v0.syms| - 1;
    RevertSyms(saved.symsTail, v, i);
    WithTailDsos(v, i, saved.tlsTail);
    ClearTlsTail(saved.tlsTail, Reverted(v, i, |v.syms|));
    SetNext(saved.tail, null, WithTail(Reverted(v, i, |v.syms|), saved.tlsTail));
    CleanedMirrors(v0, v);
  }

  lemma NextIs(d: Dso, v: View, k: nat)
    requires Consistent(v) && Mirrors(v) && k < |v.dsos| && v.dsos[k] == d
    ensures d.next == At(v.dsos, k + 1)
  {
    assert d in Members(v.dsos);
  }

  lemma EndsLazy(st: Statics, v: View, d: Dso, to: Dso?)
    requires Ends(st, v)
    ensures Ends(st.(lazyHead := d), WithLazyNext(v, d, to))
  {
  }

  lemma LoadedMembers(v: View, p: Dso, withTls: bool)
    ensures AfterLoad(v, p, withTls).dsos == v.dsos + [p]
    ensures Members(AfterLoad(v, p, withTls).dsos) == Members(v.dsos) + {p}
  {
  }

  lemma SymsMembers(v: View, d: Dso)
    requires v.syms != []
    ensures AfterSyms(v, d).dsos == v.dsos
  {
  }

  lemma LazyMembers(v: View, d: Dso, to: Dso?)
    ensures WithLazyNext(v, d, to).dsos == v.dsos
  {
  }

  lemma HeadIs(st: Statics, v: View)
    requires Consistent(v) && Ends(st, v)
    ensures v.dsos != [] && v.dsos[0] == st.head
  {
  }

  lemma ExtendsSelf(v: View)
    requires Consistent(v)
    ensures Extends(v, v)
  {
  }

  lemma NewObject(v0: View, v: View, k: nat)
    requires Extends(v0, v) && |v0.dsos| + k < |v.dsos|
    ensures v.dsos[|v0.dsos| + k] in v.dsos && v.dsos[|v0.dsos| + k] !in v0.dsos
  {
  }

  lemma FreedNew(v0: View, v: View)
    requires Extends(v0, v)
    ensures |v0.dsos| <= |v.dsos|
    ensures forall d :: d in v.dsos[|v0.dsos|..] ==> d in Members(v.dsos) && d !in Members(v0.dsos)
  {
    hide Consistent;
    forall d | d in v.dsos[|v0.dsos|..] ensures d in Members(v.dsos) && d !in Members(v0.dsos) {
      var k :| 0 <= k < |v.dsos[|v0.dsos|..]| && v.dsos[|v0.dsos|..][k] == d;
      NewObject(v0, v, k);
    }
  }

  /** What a step does, the index of `MakeGlobal` counting all objects and that of `Queue` the new ones. */
  ghost predicate Performs(v: View, lazyHead: Dso?, old_: nat, action: Action, w: View) {
    match action
    case Load(change) => w.dsos != [] && var p := w.dsos[|w.dsos| - 1]; p !in v.dsos && w == AfterLoad(v, p, change.Some?)
    case MakeGlobal(k) => v.syms != [] && w == if k < |v.dsos| then AfterSyms(v, v.dsos[k]) else v
    case Queue(k) => w == if old_ + k < |v.dsos| then WithLazyNext(v, v.dsos[old_ + k], lazyHead) else v
  }

  class Loader {
    var st: Statics
    ghost var view: View

    ghost predicate Valid()
      reads this, Members(view.dsos)`next, Members(view.dsos)`symsNext, Members(view.dsos)`tlsNext, Members(view.dsos)`lazyNext
    {
      Consistent(view) && Mirrors(view) && Ends(st, view)
    }

    /** The loader when the application is the only object. */
    constructor (app: Dso, align: nat)
      requires app.next == app.symsNext == app.tlsNext == app.lazyNext == null
      ensures Valid() && view.dsos == [app] == view.syms && view.tls == [] && st.lazyHead == null
    {
      st := Statics(app, app, app, null, null, 0, 0, align, null);
      view := View([app], [app], [], map[app := null], map[app := null], map[app := null], map[app := null]);
    }

    /** `load_library` finding a new object. */
    method LoadNew(change: Option<TlsChange>) returns (p: Dso)
      requires Valid()
      modifies this, Members(view.dsos)`next, Members(view.dsos)`tlsNext
      ensures Valid() && Counted(old(st), change, st)
      ensures fresh(p) && p !in old(view.dsos) && view == AfterLoad(old(view), p, change.Some?)
    {
      hide Consistent, Mirrors, AfterLoad, WithNew, Members, Ends;
      p := NewDso(view);
      AfterLoadConsistent(view, p, change.Some?);
      var st' := Place(st, p, change, view);
      st, view := st', AfterLoad(view, p, change.Some?);
    }

    /** `add_syms` for any loaded object, one that was loaded long ago included. */
    method AddSyms(d: Dso)
      requires Valid() && d in view.dsos
      modifies this, Members(view.dsos)`symsNext
      ensures Valid() && old(view).syms != [] && view == AfterSyms(old(view), d) && st == old(st).(symsTail := st.symsTail)
    {
      hide Consistent, Mirrors, AfterSyms, Ends, Last, Members;
      AfterSymsConsistent(view, d);
      var st' := AddSymsOf(st, d, view);
      st, view := st', AfterSyms(view, d);
    }

    /** `prepare_lazy` for an object that has not been relocated. */
    method QueueLazy(d: Dso)
      requires Valid() && d in view.dsos
      modifies this, Members(view.dsos)`lazyNext
      ensures Valid() && view == WithLazyNext(old(view), d, old(st.lazyHead)) && st == old(st).(lazyHead := d)
    {
      hide Consistent, Mirrors, WithLazyNext, Ends;
      LazyKeys(view, d, st.lazyHead);
      SetLazyNext(d, st.lazyHead, view);
      EndsLazy(st, view, d, st.lazyHead);
      st, view := st.(lazyHead := d), WithLazyNext(view, d, st.lazyHead);
    }

    /** The objects after `tail`, in list order: those the cleanup frees. */
    method After(tail: Dso, ghost k: nat) returns (freed: seq<Dso>)
      requires Valid() && k < |view.dsos| && view.dsos[k] == tail
      ensures Valid() && freed == view.dsos[k + 1..]
    {
      hide Consistent, Mirrors;
      NextIs(tail, view, k);
      var p, j := tail.next, k + 1;
      freed := [];
      while p != null
        invariant Mirrors(view) && k < j <= |view.dsos| && p == At(view.dsos, j) && freed == view.dsos[k + 1..j]
        decreases |view.dsos| - j
      {
        NextIs(p, view, j);
        freed := freed + [p];
        p, j := p.next, j + 1;
      }
    }

    /** The cleanup after a failure: every list and counter is what it was when `saved` was taken. */
    method Rollback(saved: Statics, ghost v0: View) returns (freed: seq<Dso>)
      requires Valid() && Extends(v0, view) && Ends(saved, v0)
      modifies this, Members(view.dsos)`next, Members(view.dsos)`symsNext, Members(view.dsos)`tlsNext
      ensures Valid() && st == saved && view == v0
      ensures |v0.dsos| <= |old(view.dsos)| && freed == old(view.dsos)[|v0.dsos|..]
    {
      hide Mirrors, Extends, Consistent, Ends, Last, At, Members;
      ExtendsParts(v0, view, saved);
      Heads(v0, view, saved, st);
      freed := After(saved.tail, |v0.dsos| - 1);
      ClearLinks(saved, v0, view);
      var tlsHead := if saved.tlsTail == null then null else st.tlsHead;
      st := Statics(st.head, saved.tail, saved.symsTail, tlsHead, saved.tlsTail,
                    saved.tlsCnt, saved.tlsOffset, saved.tlsAlign, saved.lazyHead);
      view := v0;
    }

    /** One step of the call before it fails. The lists only grow, and of the objects that were
        there before the call none is queued for lazy relocation. */
    method Act(action: Action, saved: Statics, ghost v0: View)
      requires Valid() && Extends(v0, view) && Ends(saved, v0)
      modifies this, Members(view.dsos)`next, Members(view.dsos)`symsNext, Members(view.dsos)`tlsNext, Members(view.dsos)`lazyNext
      ensures Valid() && Extends(v0, view)
      ensures forall d :: d in Members(view.dsos) ==> d in old(Members(view.dsos)) || fresh(d)
      ensures |view.dsos| == old(|view.dsos|) + Loads([action])
      ensures Performs(old(view), old(st).lazyHead, |v0.dsos|, action, view)
    {
      hide Mirrors, Extends, Consistent, Ends, AfterLoad, AfterSyms, WithLazyNext, Members;
      ExtendsParts(v0, view, saved);
      assert view.syms != [] by { ConsistentMembers(view); }
      match action
      case Load(change) =>
        ghost var v := view;
        var p := LoadNew(change);
        ExtendsLoad(v0, v, p, change.Some?);
        LoadedMembers(v, p, change.Some?);
      case MakeGlobal(k) =>
        HeadIs(st, view);
        var rest := After(st.head, 0);
        var all := [st.head] + rest;
        if k < |all| {
          assert all[k] in view.dsos;
          ExtendsSyms(v0, view, all[k]);
          SymsMembers(view, all[k]);
          AddSyms(all[k]);
        }
      case Queue(k) =>
        var added := After(saved.tail, |v0.dsos| - 1);
        if k < |added| {
          NewObject(v0, view, k);
          ExtendsLazy(v0, view, added[k], st.lazyHead);
          LazyMembers(view, added[k], st.lazyHead);
          QueueLazy(added[k]);
        }
    }

    /** A `dlopen` that fails after any number of steps of any kind leaves every list, counter and
        link of the loader as it was, and frees exactly what it had loaded. */
    method FailingOpen(script: seq<Action>) returns (freed: seq<Dso>)
      requires Valid()
      modifies this, Members(view.dsos)`next, Members(view.dsos)`symsNext, Members(view.dsos)`tlsNext, Members(view.dsos)`lazyNext
      ensures Valid() && st == old(st) && view == old(view)
      ensures |freed| == Loads(script) && forall d :: d in freed ==> fresh(d)
    {
      hide Mirrors, Extends, Consistent, Ends, Members;
      var saved := st;
      ghost var v0 := view;
      ExtendsSelf(v0);
      for i := 0 to |script|
        invariant Valid() && Extends(v0, view)
        invariant forall d :: d in Members(view.dsos) ==> d in Members(v0.dsos) || fresh(d)
        invariant |view.dsos| == |v0.dsos| + Loads(script[..i])
      {
        assert script[..i + 1] == script[..i] + [script[i]];
        Act(script[i], saved, v0);
      }
      assert script[..|script|] == script;
      ghost var v := view;
      freed := Rollback(saved, v0);
      FreedNew(v0, v);
    }
  }
}
