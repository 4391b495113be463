/** What a label selector of a policy selects. The resource definition calls it `matchLabels`; the compiler
    turns it into one identity, which only a machine with the same label set has, hash collisions aside. */
module Selectors {
  import opened Bits
  import opened Bytes
  import opened Sequences
  import opened Labels
  import opened LabelText
  import opened Microseg

  /** The machine has every label of the selector, and perhaps more. */
  ghost predicate Selects(selector: LabelSet, labels: LabelSet) {
    forall key :: key in selector ==> key in labels && labels[key] == selector[key]
  }

  ghost predicate Selected(selectors: seq<LabelSet>, labels: LabelSet) {
    exists i :: 0 <= i < |selectors| && Selects(selectors[i], labels)
  }

  /** The machine's identity is one of those the compiler writes for the selectors. */
  ghost predicate Matched(selectors: seq<LabelSet>, labels: LabelSet) {
    Identity(labels) in Identities(selectors)
  }

  /** Two texts that are hashed to one identity. */
  predicate Collide(a: Text, b: Text) {
    a != b && Unreserved(Fnv(a)) == Unreserved(Fnv(b))
  }

  ghost predicate NoCollision(selectors: seq<LabelSet>, labels: LabelSet) {
    forall i :: 0 <= i < |selectors| ==> !Collide(Rendered(selectors[i]), Rendered(labels))
  }

  /** No commas in labels, no equals signs in their names. */
  ghost predicate AllPlain(selectors: seq<LabelSet>, labels: LabelSet) {
    Plain(labels) && forall i :: 0 <= i < |selectors| ==> Plain(selectors[i])
  }

  lemma SameIdentity(a: LabelSet, b: LabelSet)
    requires Plain(a) && Plain(b) && !Collide(Rendered(a), Rendered(b))
    ensures Identity(a) == Identity(b) <==> a == b
  {
    IdentityRendered(a);
    IdentityRendered(b);
    hide Rendered, Identity, Fnv, Plain;
    if Rendered(a) == Rendered(b) { RenderedUnique(a, b); }
  }

  /** Up to collisions of the hash a machine is matched exactly when its whole label set is one of the selectors. */
  lemma MatchedExactly(selectors: seq<LabelSet>, labels: LabelSet)
    requires AllPlain(selectors, labels) && NoCollision(selectors, labels)
    ensures Matched(selectors, labels) <==> labels in selectors
  {
    hide Identity, Plain, Rendered, Collide;
    if labels in selectors {
      var i :| 0 <= i < |selectors| && selectors[i] == labels;
    }
    if Matched(selectors, labels) {
      var sel :| sel in selectors && Identity(sel) == Identity(labels);
      var i :| 0 <= i < |selectors| && selectors[i] == sel;
      SameIdentity(sel, labels);
    }
  }

  /** So it is matched as selectors mean it, exactly when it is not selected by fewer labels than it has or
      is named in full as well. */
  lemma SelectionExactly(selectors: seq<LabelSet>, labels: LabelSet)
    requires AllPlain(selectors, labels) && NoCollision(selectors, labels)
    ensures (Matched(selectors, labels) <==> Selected(selectors, labels)) <==>
      (labels in selectors || forall i :: 0 <= i < |selectors| ==> !Selects(selectors[i], labels))
  {
    hide Identity, Matched, AllPlain, NoCollision;
    MatchedExactly(selectors, labels);
    if labels in selectors {
      var i :| 0 <= i < |selectors| && selectors[i] == labels;
      assert Selects(selectors[i], labels);
    }
  }

  /** Between two machines a policy generates keys exactly when it names both label sets in full. */
  lemma GeneratesExactly(p: Policy, from: LabelSet, to: LabelSet, rule: Rule)
    requires AllPlain(p.sources, from) && NoCollision(p.sources, from)
    requires AllPlain(p.destinations, to) && NoCollision(p.destinations, to)
    ensures Generates(p, Key(Identity(from), Identity(to), rule.proto, rule.port)) <==>
      from in p.sources && to in p.destinations && rule in Rules(p)
  {
    hide Identity, Identities, Rules, AllPlain, NoCollision;
    MatchedExactly(p.sources, from);
    MatchedExactly(p.destinations, to);
  }

  // ----- The empty selector, which selects every machine -----

  /** A policy for the empty selector is not about any machine whose labels, as rendered, have an odd number of
      odd bytes. */
  lemma EmptySelectorMisses(labels: LabelSet)
    requires OddBytes(Rendered(labels)) % 2 == 1
    ensures Selected([map[]], labels) && !Matched([map[]], labels)
  {
    hide Rendered, Identity, Identities;
    RenderedNone();
    IdentityParity(map[]);
    IdentityParity(labels);
    OneSelector(map[]);
    assert Selects([map[]][0], labels);
  }

  /** The label a=a is one such. */
  lemma EmptySelectorMissesOne()
    ensures var labels: LabelSet := map[[97] := [97]]; Plain(labels) && Selected([map[]], labels) && !Matched([map[]], labels)
  {
    var labels: LabelSet := map[[97] := [97]];
    OneLabel([97], [97]);
    hide Rendered, Selected, Matched;
    assert Rendered(labels) == [97, 61, 97];
    OddThree(97, 61, 97);
    EmptySelectorMisses(labels);
  }

  lemma OddThree(a: byte, b: byte, c: byte)
    ensures OddBytes([a, b, c]) == a % 2 + b % 2 + c % 2
  {
    assert [a, b, c][..2] == [a, b] && [a, b][..1] == [a];
    assert OddBytes([a]) == a % 2;
    assert OddBytes([a, b]) == a % 2 + b % 2;
  }
}
