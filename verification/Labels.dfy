/** Identities of label sets: the FNV-32 hash of the sorted `key=value` pairs, which must not depend
    on the order in which a hash map yields its entries. */
module Labels {
  import opened Sequences
  import opened Bits
  import opened Bytes

  /** A string as the bytes of its UTF-8 encoding. */
  type Text = seq<byte>
  type u32 = x: int | 0 <= x < 0x1_0000_0000
  type LabelSet = map<Text, Text>

  // ----- The order of strings, and sorting -----

  predicate Leq(a: Text, b: Text) {
    a == [] || (b != [] && (a[0] < b[0] || (a[0] == b[0] && Leq(a[1..], b[1..]))))
  }

  lemma {:induction false} LeqTotal(a: Text, b: Text)
    ensures Leq(a, b) || Leq(b, a)
  {
    if a != [] && b != [] { LeqTotal(a[1..], b[1..]); }
  }

  lemma {:induction false} LeqAntisymmetric(a: Text, b: Text)
    requires Leq(a, b) && Leq(b, a)
    ensures a == b
  {
    if a != [] && b != [] {
      LeqAntisymmetric(a[1..], b[1..]);
      assert a == [a[0]] + a[1..] && b == [b[0]] + b[1..];
    }
  }

  lemma {:induction false} LeqTransitive(a: Text, b: Text, c: Text)
    requires Leq(a, b) && Leq(b, c)
    ensures Leq(a, c)
  {
    if a != [] && a[0] == b[0] && b[0] == c[0] { LeqTransitive(a[1..], b[1..], c[1..]); }
  }

  ghost predicate Sorted(s: seq<Text>) {
    forall i, j :: 0 <= i < j < |s| ==> Leq(s[i], s[j])
  }

  function Insert(x: Text, s: seq<Text>): seq<Text> {
    if s == [] || Leq(x, s[0]) then [x] + s else [s[0]] + Insert(x, s[1..])
  }

  function Sort(s: seq<Text>): seq<Text> {
    if s == [] then [] else Insert(s[0], Sort(s[1..]))
  }

  lemma {:induction false} InsertSorted(x: Text, s: seq<Text>)
    requires Sorted(s)
    ensures Sorted(Insert(x, s)) && multiset(Insert(x, s)) == multiset{x} + multiset(s)
  {
    if s == [] {
    } else if Leq(x, s[0]) {
      LowerThanHead(x, s);
      SortedCons(x, s);
    } else {
      LeqTotal(x, s[0]);
      InsertSorted(x, s[1..]);
      assert s == [s[0]] + s[1..];
      InsertMembers(x, s[1..], s[0]);
      SortedCons(s[0], Insert(x, s[1..]));
    }
  }

  lemma SortedCons(x: Text, s: seq<Text>)
    requires Sorted(s) && forall i :: 0 <= i < |s| ==> Leq(x, s[i])
    ensures Sorted([x] + s) && multiset([x] + s) == multiset{x} + multiset(s)
  {
  }

  lemma LowerThanHead(x: Text, s: seq<Text>)
    requires Sorted(s) && s != [] && Leq(x, s[0])
    ensures forall i :: 0 <= i < |s| ==> Leq(x, s[i])
  {
    forall i | 0 <= i < |s| ensures Leq(x, s[i]) {
      if i > 0 { LeqTransitive(x, s[0], s[i]); }
    }
  }

  lemma InsertMembers(x: Text, s: seq<Text>, low: Text)
    requires multiset(Insert(x, s)) == multiset{x} + multiset(s)
    requires Leq(low, x) && Sorted([low] + s)
    ensures forall i :: 0 <= i < |Insert(x, s)| ==> Leq(low, Insert(x, s)[i])
  {
    var t := Insert(x, s);
    forall i | 0 <= i < |t| ensures Leq(low, t[i]) {
      assert t[i] in multiset(t);
      if t[i] != x {
        assert t[i] in s;
        var j :| 0 <= j < |s| && s[j] == t[i];
        var whole := [low] + s;
        assert whole[0] == low && whole[j + 1] == s[j];
      }
    }
  }

  lemma {:induction false} SortSorts(s: seq<Text>)
    ensures Sorted(Sort(s)) && multiset(Sort(s)) == multiset(s)
  {
    if s != [] {
      SortSorts(s[1..]);
      InsertSorted(s[0], Sort(s[1..]));
      assert s == [s[0]] + s[1..];
    }
  }

  /** Only one sequence is sorted and has given elements, so how `sort` works does not matter. */
  lemma {:induction false} SortedUnique(s: seq<Text>, t: seq<Text>)
    requires Sorted(s) && Sorted(t) && multiset(s) == multiset(t)
    ensures s == t
  {
    if s == [] {
      assert |multiset(t)| == 0;
    } else {
      assert |multiset(t)| == |multiset(s)|;
      SameLeast(s, t);
      assert s == [s[0]] + s[1..] && t == [t[0]] + t[1..];
      assert multiset(s[1..]) == multiset(s) - multiset{s[0]};
      assert multiset(t[1..]) == multiset(t) - multiset{t[0]};
      SortedUnique(s[1..], t[1..]);
    }
  }

  lemma SameLeast(s: seq<Text>, t: seq<Text>)
    requires Sorted(s) && Sorted(t) && multiset(s) == multiset(t) && s != [] && t != []
    ensures s[0] == t[0]
  {
    HeadLeast(s, t[0]);
    HeadLeast(t, s[0]);
    LeqAntisymmetric(s[0], t[0]);
  }

  lemma HeadLeast(s: seq<Text>, x: Text)
    requires Sorted(s) && x in multiset(s) && s != []
    ensures Leq(s[0], x)
  {
    assert x in s;
    var i :| 0 <= i < |s| && s[i] == x;
    if i == 0 { LeqTotal(x, x); }
  }

  // ----- Identities -----

  function Render(entry: (Text, Text)): Text {
    entry.0 + [61] + entry.1
  }

  function RenderAll(labels: seq<(Text, Text)>): (pairs: seq<Text>)
    ensures |pairs| == |labels| && forall i :: 0 <= i < |pairs| ==> pairs[i] == Render(labels[i])
  {
    seq(|labels|, i requires 0 <= i < |labels| => Render(labels[i]))
  }

  function Join(pairs: seq<Text>): Text {
    if pairs == [] then [] else if |pairs| == 1 then pairs[0] else pairs[0] + [44] + Join(pairs[1..])
  }

  function FnvStep(hash: u32, b: byte): u32 {
    Xor(hash, b) * 0x0100_0193 % 0x1_0000_0000
  }

  function Fnv(text: Text): u32 {
    if text == [] then 0x811c_9dc5 else FnvStep(Fnv(text[..|text| - 1]), text[|text| - 1])
  }

  /** 0 is the unknown identity and 1 the host's. */
  function Unreserved(hash: u32): (id: u32)
    ensures id != 0 && id != 1
  {
    if hash < 2 then hash + 2 else hash
  }

  function IdentityOf(labels: seq<(Text, Text)>): u32 {
    Unreserved(Fnv(Join(Sort(RenderAll(labels)))))
  }

  /** `order` is an order in which a hash map may yield its entries. */
  ghost predicate Enumerates(order: seq<(Text, Text)>, labels: LabelSet) {
    Distinct(order) && forall l :: l in order <==> l.0 in labels && labels[l.0] == l.1
  }

  lemma {:induction false} DistinctCounts(s: seq<(Text, Text)>)
    requires Distinct(s)
    ensures forall x :: multiset(s)[x] == if x in s then 1 else 0
  {
    if s != [] {
      var rest, last := s[..|s| - 1], s[|s| - 1];
      assert s == rest + [last];
      DistinctSplit(rest, last);
      DistinctCounts(rest);
    }
  }

  lemma {:induction false} RenderPermutation(s: seq<(Text, Text)>, t: seq<(Text, Text)>)
    requires multiset(s) == multiset(t)
    ensures multiset(RenderAll(s)) == multiset(RenderAll(t))
    decreases |s|
  {
    if s == [] {
      assert |multiset(t)| == 0;
    } else {
      hide RenderAll;
      assert s[0] in multiset(t);
      var i :| 0 <= i < |t| && t[i] == s[0];
      RenderWithout(s, 0);
      RenderWithout(t, i);
      RenderPermutation(Without(s, 0), Without(t, i));
    }
  }

  function Without(s: seq<(Text, Text)>, i: nat): (rest: seq<(Text, Text)>)
    requires i < |s|
    ensures |rest| == |s| - 1
  {
    s[..i] + s[i + 1..]
  }

  lemma RenderWithout(s: seq<(Text, Text)>, i: nat)
    requires i < |s|
    ensures multiset(Without(s, i)) == multiset(s) - multiset{s[i]}
    ensures multiset(RenderAll(s)) == multiset(RenderAll(Without(s, i))) + multiset{Render(s[i])}
  {
    var a, b := s[..i], s[i + 1..];
    assert s == a + [s[i]] + b;
    RenderConcat(a, b);
    RenderConcat(a, [s[i]]);
    RenderConcat(a + [s[i]], b);
    assert RenderAll([s[i]]) == [Render(s[i])];
    hide RenderAll;
  }

  lemma RenderConcat(a: seq<(Text, Text)>, b: seq<(Text, Text)>)
    ensures RenderAll(a + b) == RenderAll(a) + RenderAll(b)
  {
  }

  /** The identity of a label set does not depend on the order its labels are met in. */
  lemma OrderIrrelevant(labels: LabelSet, s: seq<(Text, Text)>, t: seq<(Text, Text)>)
    requires Enumerates(s, labels) && Enumerates(t, labels)
    ensures IdentityOf(s) == IdentityOf(t)
  {
    SameCounts(labels, s, t);
    RenderPermutation(s, t);
    SortSorts(RenderAll(s));
    SortSorts(RenderAll(t));
    SortedUnique(Sort(RenderAll(s)), Sort(RenderAll(t)));
  }

  lemma SameCounts(labels: LabelSet, s: seq<(Text, Text)>, t: seq<(Text, Text)>)
    requires Enumerates(s, labels) && Enumerates(t, labels)
    ensures multiset(s) == multiset(t)
  {
    DistinctCounts(s);
    DistinctCounts(t);
    forall x ensures multiset(s)[x] == multiset(t)[x] {
      assert x in s <==> x in t;
    }
  }

  lemma {:induction false} EnumerationExists(labels: LabelSet)
    ensures exists order :: Enumerates(order, labels)
    decreases |labels|
  {
    if labels == map[] {
      assert Enumerates([], labels);
    } else {
      var k :| k in labels;
      EnumerationExists(labels - {k});
      var order :| Enumerates(order, labels - {k});
      EnumerateOne(order, labels, k);
    }
  }

  lemma EnumerateOne(order: seq<(Text, Text)>, labels: LabelSet, k: Text)
    requires k in labels && Enumerates(order, labels - {k})
    ensures Enumerates(order + [(k, labels[k])], labels)
  {
  }

  ghost function Identity(labels: LabelSet): (id: u32)
    ensures exists order :: Enumerates(order, labels) && id == IdentityOf(order)
  {
    EnumerationExists(labels);
    var order :| Enumerates(order, labels);
    IdentityOf(order)
  }

  lemma IdentityAny(labels: LabelSet, order: seq<(Text, Text)>)
    requires Enumerates(order, labels)
    ensures Identity(labels) == IdentityOf(order)
  {
    var other :| Enumerates(other, labels) && Identity(labels) == IdentityOf(other);
    OrderIrrelevant(labels, order, other);
  }

  /** The hash loop. */
  method Hash(text: Text) returns (hash: u32)
    ensures hash == Fnv(text)
  {
    hide FnvStep;
    hash := 0x811c_9dc5;
    for i := 0 to |text|
      invariant hash == Fnv(text[..i])
    {
      assert text[..i + 1][..i] == text[..i];
      hash := FnvStep(hash, text[i]);
    }
    assert text[..|text|] == text;
  }

  /** Whatever order the hash map yields, the result is the same, and never a reserved identity. */
  method LabelsToIdentity(labels: LabelSet) returns (id: u32)
    ensures id == Identity(labels) && id != 0 && id != 1
    ensures forall order :: Enumerates(order, labels) ==> id == IdentityOf(order)
  {
    hide Fnv, Join, Sort, RenderAll, Enumerates, Identity;
    NoneMet(labels);
    var pairs: seq<Text>, rest := [], labels;
    ghost var met: seq<(Text, Text)> := [];
    while rest != map[]
      invariant pairs == RenderAll(met) && rest.Items <= labels.Items
      invariant Enumerates(met, labels - rest.Keys)
      decreases |rest|
    {
      var k :| k in rest;
      MeetOne(met, labels, rest, k);
      pairs := pairs + [Render((k, rest[k]))];
      met := met + [(k, rest[k])];
      rest := rest - {k};
    }
    assert labels - rest.Keys == labels;
    var combined := Join(Sort(pairs));
    var hash := Hash(combined);
    id := Unreserved(hash);
    assert id == IdentityOf(met);
    forall order | Enumerates(order, labels) ensures id == IdentityOf(order) {
      OrderIrrelevant(labels, met, order);
    }
  }

  lemma NoneMet(labels: LabelSet)
    ensures RenderAll([]) == [] && Enumerates([], labels - labels.Keys)
  {
  }

  lemma MeetOne(met: seq<(Text, Text)>, labels: LabelSet, rest: LabelSet, k: Text)
    requires rest.Items <= labels.Items && k in rest && Enumerates(met, labels - rest.Keys)
    ensures (rest - {k}).Items <= labels.Items && |rest - {k}| < |rest|
    ensures Enumerates(met + [(k, rest[k])], labels - (rest - {k}).Keys)
    ensures RenderAll(met + [(k, rest[k])]) == RenderAll(met) + [Render((k, rest[k]))]
  {
    assert (k, rest[k]) in rest.Items;
    var more := labels - (rest - {k}).Keys;
    assert more - {k} == labels - rest.Keys;
    EnumerateOne(met, more, k);
    assert (rest - {k}).Keys == rest.Keys - {k};
    assert |(rest - {k}).Keys| < |rest.Keys|;
    forall item | item in (rest - {k}).Items ensures item in labels.Items {
      assert item in rest.Items;
    }
  }
}
