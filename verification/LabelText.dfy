/** The text that the identity of a label set is a hash of: its `key=value` pairs, sorted and joined by commas.
    Where keys and values have no commas and keys no equals signs, no two label sets share a text. */
module LabelText {
  import Bits
  import opened Bytes
  import opened Sequences
  import opened Labels

  ghost function Rendered(labels: LabelSet): (text: Text)
    ensures exists order :: Enumerates(order, labels) && text == Join(Sort(RenderAll(order)))
  {
    EnumerationExists(labels);
    var order :| Enumerates(order, labels);
    Join(Sort(RenderAll(order)))
  }

  lemma RenderedAny(labels: LabelSet, order: seq<(Text, Text)>)
    requires Enumerates(order, labels)
    ensures Rendered(labels) == Join(Sort(RenderAll(order)))
  {
    hide Join, Enumerates, Sort, RenderAll;
    var other :| Enumerates(other, labels) && Rendered(labels) == Join(Sort(RenderAll(other)));
    SameCounts(labels, order, other);
    RenderPermutation(order, other);
    SortSorts(RenderAll(order));
    SortSorts(RenderAll(other));
    SortedUnique(Sort(RenderAll(order)), Sort(RenderAll(other)));
  }

  lemma IdentityRendered(labels: LabelSet)
    ensures Identity(labels) == Unreserved(Fnv(Rendered(labels)))
    ensures var hash := Fnv(Rendered(labels)); Identity(labels) == if hash == 0 then 2 else if hash == 1 then 3 else hash
  {
    hide Join, Enumerates, Sort, RenderAll, Fnv, Identity;
    var text := Rendered(labels);
    var order :| Enumerates(order, labels) && text == Join(Sort(RenderAll(order)));
    IdentityAny(labels, order);
  }

  // ----- Reading a text back -----

  predicate PlainPair(pair: (Text, Text)) {
    44 !in pair.0 && 61 !in pair.0 && 44 !in pair.1
  }

  ghost predicate Plain(labels: LabelSet) {
    forall key :: key in labels ==> PlainPair((key, labels[key]))
  }

  /** A text up to the first `c`. */
  function UpTo(text: Text, c: byte): Text {
    if text == [] || text[0] == c then [] else [text[0]] + UpTo(text[1..], c)
  }

  lemma {:induction false} UpToCut(a: Text, c: byte, rest: Text)
    requires c !in a
    ensures UpTo(a + [c] + rest, c) == a
  {
    if a != [] {
      UpToCut(a[1..], c, rest);
      assert (a + [c] + rest)[1..] == a[1..] + [c] + rest;
    }
  }

  lemma CutUnique(a: Text, b: Text, c: byte, restA: Text, restB: Text)
    requires c !in a && c !in b && a + [c] + restA == b + [c] + restB
    ensures a == b && restA == restB
  {
    UpToCut(a, c, restA);
    UpToCut(b, c, restB);
    assert (a + [c] + restA)[|a| + 1..] == restA && (b + [c] + restB)[|b| + 1..] == restB;
  }

  lemma RenderUnique(p: (Text, Text), q: (Text, Text))
    requires PlainPair(p) && PlainPair(q) && Render(p) == Render(q)
    ensures p == q
  {
    CutUnique(p.0, q.0, 61, p.1, q.1);
  }

  /** A piece of a joined text. */
  predicate Piece(text: Text) {
    text != [] && 44 !in text
  }

  lemma PieceAlone(piece: Text, a: Text, b: Text)
    requires 44 !in piece
    ensures piece != a + [44] + b
  {
    assert (a + [44] + b)[|a|] == 44;
  }

  lemma {:induction false} JoinUnique(a: seq<Text>, b: seq<Text>)
    requires (forall i :: 0 <= i < |a| ==> Piece(a[i])) && (forall i :: 0 <= i < |b| ==> Piece(b[i]))
    requires Join(a) == Join(b)
    ensures a == b
  {
    if a != [] && b != [] {
      if |a| > 1 && |b| > 1 {
        CutUnique(a[0], b[0], 44, Join(a[1..]), Join(b[1..]));
        JoinUnique(a[1..], b[1..]);
        assert a == [a[0]] + a[1..] && b == [b[0]] + b[1..];
      } else if |a| > 1 {
        PieceAlone(b[0], a[0], Join(a[1..]));
      } else if |b| > 1 {
        PieceAlone(a[0], b[0], Join(b[1..]));
      }
    }
  }

  lemma RenderedPieces(labels: LabelSet, order: seq<(Text, Text)>)
    requires Plain(labels) && Enumerates(order, labels)
    ensures forall i :: 0 <= i < |order| ==> PlainPair(order[i])
    ensures forall pair :: pair in Sort(RenderAll(order)) ==> Piece(pair)
  {
    var pairs := RenderAll(order);
    SortSorts(pairs);
    forall i | 0 <= i < |order| ensures PlainPair(order[i]) && Piece(pairs[i]) {
      assert order[i] in order;
    }
    hide Sort, RenderAll, Piece, PlainPair;
    forall pair | pair in Sort(pairs) ensures Piece(pair) {
      assert pair in multiset(Sort(pairs));
      var i :| 0 <= i < |pairs| && pairs[i] == pair;
    }
  }

  /** What is rendered in one order is met in another that renders to the same. */
  lemma SameLabel(s: seq<(Text, Text)>, t: seq<(Text, Text)>, l: (Text, Text))
    requires (forall i :: 0 <= i < |s| ==> PlainPair(s[i])) && (forall i :: 0 <= i < |t| ==> PlainPair(t[i]))
    requires multiset(RenderAll(s)) == multiset(RenderAll(t)) && l in s
    ensures l in t
  {
    var i :| 0 <= i < |s| && s[i] == l;
    assert RenderAll(s)[i] in multiset(RenderAll(t));
    assert RenderAll(s)[i] in RenderAll(t);
    var j :| 0 <= j < |t| && RenderAll(t)[j] == Render(l);
    RenderUnique(l, t[j]);
  }

  /** No two plain label sets have the same text. */
  lemma RenderedUnique(a: LabelSet, b: LabelSet)
    requires Plain(a) && Plain(b) && Rendered(a) == Rendered(b)
    ensures a == b
  {
    hide Rendered, Join, Sort, RenderAll, Piece, PlainPair, Plain, Enumerates, Distinct, Sorted;
    var s :| Enumerates(s, a) && Rendered(a) == Join(Sort(RenderAll(s)));
    var t :| Enumerates(t, b) && Rendered(b) == Join(Sort(RenderAll(t)));
    RenderedPieces(a, s);
    RenderedPieces(b, t);
    JoinUnique(Sort(RenderAll(s)), Sort(RenderAll(t)));
    SortSorts(RenderAll(s));
    SortSorts(RenderAll(t));
    forall l ensures l in s <==> l in t {
      if l in s { SameLabel(s, t, l); }
      if l in t { SameLabel(t, s, l); }
    }
    SameLabels(a, b, s, t);
  }

  lemma SameLabels(a: LabelSet, b: LabelSet, s: seq<(Text, Text)>, t: seq<(Text, Text)>)
    requires Enumerates(s, a) && Enumerates(t, b) && forall l :: l in s <==> l in t
    ensures a == b
  {
    forall k | k in a ensures k in b && b[k] == a[k] {
      assert (k, a[k]) in s;
    }
    forall k | k in b ensures k in a {
      assert (k, b[k]) in t;
    }
  }

  // ----- Two label sets with one text -----

  lemma OneLabel(key: Text, value: Text)
    ensures Rendered(map[key := value]) == key + [61] + value
  {
    var order := [(key, value)];
    var labels: LabelSet := map[key := value];
    forall l ensures l in order <==> l.0 in labels && labels[l.0] == l.1 {
      assert l in order <==> l == (key, value);
    }
    RenderedAny(labels, order);
    var pairs := RenderAll(order);
    assert pairs == [Render(order[0])];
    assert pairs[1..] == [] && Sort(pairs[1..]) == [];
    assert Sort(pairs) == Insert(pairs[0], []) == pairs;
  }

  lemma TwoLabels(k1: Text, v1: Text, k2: Text, v2: Text)
    requires k1 != k2 && Leq(Render((k1, v1)), Render((k2, v2)))
    ensures Rendered(map[k1 := v1, k2 := v2]) == Render((k1, v1)) + [44] + Render((k2, v2))
  {
    hide Rendered, Leq;
    var order := [(k1, v1), (k2, v2)];
    var labels: LabelSet := map[k1 := v1, k2 := v2];
    forall l ensures l in order <==> l.0 in labels && labels[l.0] == l.1 {
      assert l in order <==> l == (k1, v1) || l == (k2, v2);
    }
    RenderedAny(labels, order);
    var pairs := RenderAll(order);
    assert pairs == [Render(order[0]), Render(order[1])];
    SortTwo(pairs);
    JoinTwo(pairs);
  }

  lemma SortTwo(pairs: seq<Text>)
    requires |pairs| == 2 && Leq(pairs[0], pairs[1])
    ensures Sort(pairs) == pairs
  {
    hide Leq;
    var rest := pairs[1..];
    assert rest == [pairs[1]] && rest[1..] == [];
    assert Sort(rest) == rest;
  }

  lemma JoinTwo(pairs: seq<Text>)
    requires |pairs| == 2
    ensures Join(pairs) == pairs[0] + [44] + pairs[1]
  {
    assert pairs[1..] == [pairs[1]];
  }

  /** A value with a comma and an equals sign can stand for a second label: the two label sets have one identity. */
  lemma CommaConfuses(k1: Text, v1: Text, k2: Text, v2: Text)
    requires k1 != k2 && Leq(Render((k1, v1)), Render((k2, v2)))
    ensures var one: LabelSet := map[k1 := v1 + [44] + k2 + [61] + v2];
            var two: LabelSet := map[k1 := v1, k2 := v2];
            one != two && Identity(one) == Identity(two)
  {
    hide Rendered, Identity, Leq;
    var one: LabelSet := map[k1 := v1 + [44] + k2 + [61] + v2];
    var two: LabelSet := map[k1 := v1, k2 := v2];
    assert k2 in two && k2 !in one;
    OneLabel(k1, v1 + [44] + k2 + [61] + v2);
    TwoLabels(k1, v1, k2, v2);
    assert Rendered(one) == Rendered(two);
    IdentityRendered(one);
    IdentityRendered(two);
  }

  // ----- The hash is FNV-1a -----

  /** One step: the byte is combined with the hash bit by bit, then the product with the FNV prime is cut to 32 bits. */
  lemma FnvStepIs(hash: u32, b: byte) returns (mixed: nat)
    ensures FnvStep(hash, b) == mixed * 16777619 % Bits.Pow2(32)
    ensures forall k: nat :: Bits.BitSet(mixed, k) <==> Bits.BitSet(hash, k) != Bits.BitSet(b, k)
  {
    hide Bits.BitSet, Bits.Pow2;
    mixed := Bits.Xor(hash, b);
    Pow2Word();
    forall k: nat ensures Bits.BitSet(mixed, k) <==> Bits.BitSet(hash, k) != Bits.BitSet(b, k) {
      Bits.XorBits(hash, b, k);
    }
  }

  /** Published values of the 32-bit FNV-1a hash, of the empty text and of "a". */
  lemma FnvVectors()
    ensures Fnv([]) == 0x811c_9dc5 && Fnv([97]) == 0xe40c_292c
  {
    hide Bits.Xor;
    assert Fnv([97]) == FnvStep(Fnv([]), 97) by { assert [97][..0] == []; }
    XorVector();
  }

  lemma XorVector()
    ensures Bits.Xor(0x811c_9dc5, 97) == 0x811c_9da4
  {
    hide Bits.Xor;
    assert Bits.Xor(0x102393b, 0) == 0x102393b by { XorNothing(0x102393b); }
    Bits.XorHalf(0x2047277, 1);
    Bits.XorHalf(0x408e4ee, 3);
    Bits.XorHalf(0x811c9dc, 6);
    Bits.XorHalf(0x102393b8, 12);
    Bits.XorHalf(0x20472771, 24);
    Bits.XorHalf(0x408e4ee2, 48);
    Bits.XorHalf(0x811c9dc5, 97);
  }

  lemma XorNothing(a: nat)
    ensures Bits.Xor(a, 0) == a
  {
  }

  // ----- The lowest bit of a hash -----

  function OddBytes(text: Text): nat {
    if text == [] then 0 else OddBytes(text[..|text| - 1]) + text[|text| - 1] % 2
  }

  /** The multiplier is odd. */
  lemma FnvStepParity(hash: u32, b: byte)
    ensures FnvStep(hash, b) % 2 == (hash + b) % 2
  {
    XorParity(hash, b);
    OddProduct(Bits.Xor(hash, b));
  }

  lemma XorParity(a: nat, b: nat)
    ensures Bits.Xor(a, b) % 2 == (a + b) % 2
  {
  }

  lemma SameParity(y: int, twice: int, x: int)
    requires y == 2 * twice + x
    ensures y % 2 == x % 2
  {
  }

  lemma OddProduct(x: nat)
    ensures x * 0x0100_0193 % 0x1_0000_0000 % 2 == x % 2
  {
    var product := x * 0x0100_0193;
    SameParity(product, x * 0x0080_00c9, x);
    Wrapped(product);
  }

  lemma Wrapped(x: nat)
    ensures x % 0x1_0000_0000 % 2 == x % 2
  {
    var wraps, rest := x / 0x1_0000_0000, x % 0x1_0000_0000;
    assert x == 0x1_0000_0000 * wraps + rest;
    SameParity(x, 0x8000_0000 * wraps, rest);
  }

  lemma ParitiesAdd(a: nat, b: nat, c: nat)
    requires a % 2 == (1 + c) % 2
    ensures (a + b) % 2 == (1 + (c + b % 2)) % 2
  {
  }

  /** A hash is odd exactly when its text has an even number of odd bytes. */
  lemma {:induction false} FnvParity(text: Text)
    ensures Fnv(text) % 2 == (1 + OddBytes(text)) % 2
  {
    if text != [] {
      hide FnvStep;
      FnvParity(text[..|text| - 1]);
      FnvStepParity(Fnv(text[..|text| - 1]), text[|text| - 1]);
      ParitiesAdd(Fnv(text[..|text| - 1]), text[|text| - 1], OddBytes(text[..|text| - 1]));
    }
  }

  lemma IdentityParity(labels: LabelSet)
    ensures Identity(labels) % 2 == (1 + OddBytes(Rendered(labels))) % 2
  {
    hide Fnv, Rendered, OddBytes, Identity;
    IdentityRendered(labels);
    FnvParity(Rendered(labels));
  }

  lemma RenderedNone()
    ensures Rendered(map[]) == []
  {
    var none: LabelSet := map[];
    var order: seq<(Text, Text)> := [];
    assert RenderAll(order) == [];
    RenderedAny(none, order);
  }
}
