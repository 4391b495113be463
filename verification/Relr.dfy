/** Relative relocations in RELR form, applied by two loops: `do_relr_relocs` for loaded
    objects and the one in `_dlstart_c` by which the loader relocates itself. Memory is the
    object's image as 64-bit words; the word at address `base + 8 * i` has index `i`. */
module Relr {
  import opened Bits
  import Bytes

  // ----- gABI "Relative Relocation Table": what a stream denotes -----

  /** The words marked by the bits of a bitmap, the lowest bit standing for word `at`. */
  function Marked(bitmap: nat, at: nat): seq<nat>
    decreases bitmap
  {
    if bitmap == 0 then []
    else (if bitmap % 2 == 1 then [at] else []) + Marked(bitmap / 2, at + 1)
  }

  /** The words a stream relocates, with `at` the word after the last one covered. */
  function Decode(relr: seq<nat>, at: nat): seq<nat> {
    if relr == [] then []
    else if relr[0] % 2 == 0 then [relr[0] / 8] + Decode(relr[1..], relr[0] / 8 + 1)
    else Marked(relr[0] / 2, at) + Decode(relr[1..], at + 63)
  }

  ghost predicate InImage(words: seq<nat>, n: nat) {
    forall k :: 0 <= k < |words| ==> words[k] < n
  }

  /** A stream that starts with an address and stays within an image of `n` words. */
  ghost predicate ValidStream(relr: seq<nat>, n: nat) {
    && (relr != [] ==> relr[0] % 2 == 0)
    && (forall i :: 0 <= i < |relr| ==> relr[i] < W && (relr[i] % 2 == 0 ==> relr[i] % 8 == 0))
    && InImage(Decode(relr, 0), n)
  }

  /** Adding the base to the words in turn, on 64-bit words. */
  function Relocate(mem: seq<nat>, base: nat, words: seq<nat>): (r: seq<nat>)
    requires InImage(words, |mem|)
    ensures |r| == |mem|
    decreases |words|
  {
    if words == [] then mem
    else
      assert InImage(words[..|words| - 1], |mem|);
      var prior := Relocate(mem, base, words[..|words| - 1]);
      prior[words[|words| - 1] := (prior[words[|words| - 1]] + base) % W]
  }

  /** How often the words name `k`. */
  function Count(words: seq<nat>, k: nat): nat {
    if words == [] then 0 else Count(words[..|words| - 1], k) + if words[|words| - 1] == k then 1 else 0
  }

  /** Each word gets the base once for every time the stream names it, and nothing else changes. */
  lemma {:induction false} RelocateCounts(mem: seq<nat>, base: nat, words: seq<nat>, k: nat)
    requires InImage(words, |mem|) && k < |mem| && forall i :: 0 <= i < |mem| ==> mem[i] < W
    ensures Relocate(mem, base, words)[k] == (mem[k] + base * Count(words, k)) % W
  {
    if words != [] {
      var prior, last := words[..|words| - 1], words[|words| - 1];
      assert words == prior + [last];
      assert InImage(prior, |mem|);
      RelocateCounts(mem, base, prior, k);
      CountStep(mem[k], base, Count(prior, k));
    }
  }

  lemma CountStep(m: nat, base: nat, c: nat)
    ensures ((m + base * c) % W + base) % W == (m + base * (c + 1)) % W
  {
  }

  // ----- Which words a stream names -----

  /** Bitmap entry `i`, the only kind of entry since address entry `a`, has the bit of word `w`: 63 words to an entry,
      from the word after the address. */
  ghost predicate MarkedBy(relr: seq<nat>, a: nat, i: nat, w: nat) {
    && a < i < |relr| && relr[a] % 2 == 0 && (forall j :: a < j <= i ==> relr[j] % 2 == 1)
    && var k := w - (relr[a] / 8 + 1) - 63 * (i - a - 1);
    0 <= k && BitSet(relr[i], k + 1)
  }

  ghost predicate Names(relr: seq<nat>, w: nat) {
    || (exists a :: 0 <= a < |relr| && relr[a] % 2 == 0 && w == relr[a] / 8)
    || (exists a: nat, i: nat :: MarkedBy(relr, a, i, w))
  }

  /** The same for the entries before the first address, the first of them standing for the words from `at`. */
  ghost predicate Leads(relr: seq<nat>, at: nat, i: nat, w: nat) {
    && i < |relr| && (forall j :: 0 <= j <= i ==> relr[j] % 2 == 1)
    && 0 <= w - at - 63 * i && BitSet(relr[i], w - at - 63 * i + 1)
  }

  ghost predicate LeadsSome(relr: seq<nat>, at: nat, w: nat) {
    exists i: nat :: Leads(relr, at, i, w)
  }

  lemma {:induction false} MarkedNames(bitmap: nat, at: nat, w: nat)
    ensures w in Marked(bitmap, at) <==> w >= at && BitSet(bitmap, w - at)
    decreases bitmap
  {
    if bitmap == 0 {
      if w >= at { NoBit(w - at); }
    } else {
      MarkedNames(bitmap / 2, at + 1, w);
    }
  }

  lemma {:induction false} NoBit(k: nat)
    ensures !BitSet(0, k)
  {
    if k > 0 { NoBit(k - 1); }
  }

  /** A leading address starts the windows of the bitmaps after it. */
  lemma AddressNames(relr: seq<nat>, w: nat)
    requires relr != [] && relr[0] % 2 == 0
    ensures Names(relr, w) <==>
      w == relr[0] / 8 || Names(relr[1..], w) || LeadsSome(relr[1..], relr[0] / 8 + 1, w)
  {
    hide BitSet;
    var rest, at := relr[1..], relr[0] / 8 + 1;
    RestNames(relr, w);
    forall i: nat ensures Leads(rest, at, i, w) <==> MarkedBy(relr, 0, i + 1, w) {
      FirstWindow(relr, i, w);
    }
    hide MarkedBy, Leads;
    if Names(relr, w) && !(exists a :: 0 <= a < |relr| && relr[a] % 2 == 0 && w == relr[a] / 8) {
      var a: nat, i: nat :| MarkedBy(relr, a, i, w);
      if a == 0 {
        MarkedAfter(relr, a, i, w);
        assert Leads(rest, at, i - 1, w);
      }
    }
  }

  lemma MarkedAfter(relr: seq<nat>, a: nat, i: nat, w: nat)
    requires MarkedBy(relr, a, i, w)
    ensures a < i
  {
  }

  lemma FirstWindow(relr: seq<nat>, i: nat, w: nat)
    requires relr != [] && relr[0] % 2 == 0
    ensures Leads(relr[1..], relr[0] / 8 + 1, i, w) <==> MarkedBy(relr, 0, i + 1, w)
  {
    hide BitSet;
    var rest := relr[1..];
    assert forall j :: 0 <= j < |rest| ==> rest[j] == relr[j + 1];
    if Leads(rest, relr[0] / 8 + 1, i, w) {
      forall j | 0 < j <= i + 1 ensures relr[j] % 2 == 1 {
        assert rest[j - 1] % 2 == 1;
      }
    }
  }

  lemma ShiftedMarks(relr: seq<nat>, a: nat, i: nat, w: nat)
    requires relr != []
    ensures MarkedBy(relr[1..], a, i, w) <==> MarkedBy(relr, a + 1, i + 1, w)
  {
    hide BitSet;
    var rest := relr[1..];
    assert forall j :: 0 <= j < |rest| ==> rest[j] == relr[j + 1];
    if MarkedBy(rest, a, i, w) {
      forall j | a + 1 < j <= i + 1 ensures relr[j] % 2 == 1 {
        assert rest[j - 1] % 2 == 1;
      }
    }
  }

  /** What the stream names without its first entry. */
  lemma RestNames(relr: seq<nat>, w: nat)
    requires relr != []
    ensures Names(relr[1..], w) <==>
      || (exists a :: 1 <= a < |relr| && relr[a] % 2 == 0 && w == relr[a] / 8)
      || (exists a: nat, i: nat :: a >= 1 && MarkedBy(relr, a, i, w))
  {
    var rest := relr[1..];
    forall a: nat, i: nat ensures MarkedBy(rest, a, i, w) <==> MarkedBy(relr, a + 1, i + 1, w) {
      ShiftedMarks(relr, a, i, w);
    }
    if a: nat, i: nat :| a >= 1 && MarkedBy(relr, a, i, w) {
      MarkedAfter(relr, a, i, w);
      assert MarkedBy(rest, a - 1, i - 1, w);
    }
    hide MarkedBy;
    if a :| 1 <= a < |relr| && relr[a] % 2 == 0 && w == relr[a] / 8 {
      assert rest[a - 1] == relr[a];
    }
    if a :| 0 <= a < |rest| && rest[a] % 2 == 0 && w == rest[a] / 8 {
      assert rest[a] == relr[a + 1];
    }
  }

  lemma BitmapNames(relr: seq<nat>, w: nat)
    requires relr != [] && relr[0] % 2 == 1
    ensures Names(relr, w) <==> Names(relr[1..], w)
  {
    RestNames(relr, w);
    if a: nat, i: nat :| MarkedBy(relr, a, i, w) {
      assert a >= 1;
    }
    hide MarkedBy;
  }

  lemma BitmapLeads(relr: seq<nat>, at: nat, w: nat)
    requires relr != [] && relr[0] % 2 == 1
    ensures LeadsSome(relr, at, w) <==> w in Marked(relr[0] / 2, at) || LeadsSome(relr[1..], at + 63, w)
  {
    MarkedNames(relr[0] / 2, at, w);
    hide BitSet;
    assert w >= at ==> (BitSet(relr[0] / 2, w - at) <==> BitSet(relr[0], w - at + 1)) by { if w >= at { HalfBits(relr[0], w - at); } }
    assert Leads(relr, at, 0, w) <==> w >= at && BitSet(relr[0], w - at + 1);
    var rest, next := relr[1..], at + 63;
    forall i: nat ensures Leads(rest, next, i, w) <==> Leads(relr, at, i + 1, w) {
      LaterLead(relr, at, i, w);
    }
    hide Leads;
    if i: nat :| Leads(relr, at, i, w) {
      assert i > 0 ==> Leads(rest, next, i - 1, w);
    }
  }

  lemma HalfBits(x: nat, k: nat)
    ensures BitSet(x / 2, k) <==> BitSet(x, k + 1)
  {
  }

  lemma LaterLead(relr: seq<nat>, at: nat, i: nat, w: nat)
    requires relr != [] && relr[0] % 2 == 1
    ensures Leads(relr[1..], at + 63, i, w) <==> Leads(relr, at, i + 1, w)
  {
    hide BitSet;
    var rest := relr[1..];
    assert forall j :: 0 <= j < |rest| ==> rest[j] == relr[j + 1];
    if Leads(rest, at + 63, i, w) {
      forall j | 0 <= j <= i + 1 ensures relr[j] % 2 == 1 {
        assert j > 0 ==> rest[j - 1] % 2 == 1;
      }
    }
  }

  lemma {:induction false} DecodeLeads(relr: seq<nat>, at: nat, w: nat)
    ensures w in Decode(relr, at) <==> Names(relr, w) || LeadsSome(relr, at, w)
    decreases |relr|
  {
    if relr != [] {
      hide Names, Marked, LeadsSome;
      if relr[0] % 2 == 0 {
        DecodeLeads(relr[1..], relr[0] / 8 + 1, w);
        AddressNames(relr, w);
      } else {
        DecodeLeads(relr[1..], at + 63, w);
        BitmapNames(relr, w);
        BitmapLeads(relr, at, w);
      }
    }
  }

  /** A stream that starts with an address names exactly these words. */
  lemma DecodeNames(relr: seq<nat>, w: nat)
    requires relr != [] ==> relr[0] % 2 == 0
    ensures w in Decode(relr, 0) <==> Names(relr, w)
  {
    hide Names;
    DecodeLeads(relr, 0, w);
  }

  // ----- Each word once -----

  ghost predicate Ascending(words: seq<nat>, lo: nat, hi: nat) {
    && (forall i :: 0 <= i < |words| ==> lo <= words[i] < hi)
    && (forall i, j :: 0 <= i < j < |words| ==> words[i] < words[j])
  }

  /** Every address entry lies past the words covered so far. */
  predicate Separate(relr: seq<nat>, at: nat) {
    if relr == [] then true
    else if relr[0] % 2 == 0 then at <= relr[0] / 8 && Separate(relr[1..], relr[0] / 8 + 1)
    else Separate(relr[1..], at + 63)
  }

  lemma {:induction false} MarkedAscends(bitmap: nat, at: nat, n: nat)
    requires bitmap < Pow2(n)
    ensures Ascending(Marked(bitmap, at), at, at + n)
    decreases n
  {
    if bitmap != 0 && n > 0 {
      MarkedAscends(bitmap / 2, at + 1, n - 1);
    }
  }

  /** In a stream of separate windows the words ascend, so none is relocated twice. */
  lemma {:induction false} DecodeAscends(relr: seq<nat>, at: nat) returns (hi: nat)
    requires Separate(relr, at) && forall i :: 0 <= i < |relr| ==> relr[i] < W
    ensures at <= hi && Ascending(Decode(relr, at), at, hi)
    decreases |relr|
  {
    if relr == [] {
      hi := at;
    } else if relr[0] % 2 == 0 {
      hi := DecodeAscends(relr[1..], relr[0] / 8 + 1);
      AscendingConcat([relr[0] / 8], Decode(relr[1..], relr[0] / 8 + 1), at, relr[0] / 8 + 1, hi);
    } else {
      hi := DecodeAscends(relr[1..], at + 63);
      HalfWord(relr[0]);
      MarkedAscends(relr[0] / 2, at, 63);
      AscendingConcat(Marked(relr[0] / 2, at), Decode(relr[1..], at + 63), at, at + 63, hi);
    }
  }

  lemma AscendingConcat(a: seq<nat>, b: seq<nat>, lo: nat, mid: nat, hi: nat)
    requires Ascending(a, lo, mid) && Ascending(b, mid, hi) && lo <= mid <= hi
    ensures Ascending(a + b, lo, hi)
  {
  }

  lemma HalfWord(x: nat)
    requires x < W
    ensures x / 2 < Pow2(63)
  {
    Bytes.Pow2Word();
  }

  /** With separate windows, the words the stream names get the base exactly once. */
  lemma RelocatedOnce(mem: seq<nat>, base: nat, relr: seq<nat>, k: nat)
    requires ValidStream(relr, |mem|) && Separate(relr, 0) && k < |mem| && forall i :: 0 <= i < |mem| ==> mem[i] < W
    ensures Relocate(mem, base, Decode(relr, 0))[k] == if k in Decode(relr, 0) then (mem[k] + base) % W else mem[k]
  {
    var words := Decode(relr, 0);
    RelocateCounts(mem, base, words, k);
    var hi := DecodeAscends(relr, 0);
    AscendingOnce(words, 0, hi, k);
  }

  lemma {:induction false} AscendingOnce(words: seq<nat>, lo: nat, hi: nat, k: nat)
    requires Ascending(words, lo, hi)
    ensures Count(words, k) == if k in words then 1 else 0
  {
    if words != [] {
      var prior := words[..|words| - 1];
      AscendingOnce(prior, lo, hi, k);
      assert words == prior + [words[|words| - 1]];
    }
  }

  // ----- The loops -----

  lemma {:induction false} RelocateAppend(mem: seq<nat>, base: nat, words: seq<nat>, more: seq<nat>)
    requires InImage(words + more, |mem|)
    ensures InImage(words, |mem|) && InImage(more, |mem|)
    ensures Relocate(mem, base, words + more) == Relocate(Relocate(mem, base, words), base, more)
    decreases |more|
  {
    InImageSplit(words, more, |mem|);
    if more == [] {
      assert words + more == words;
    } else {
      var prior := more[..|more| - 1];
      assert (words + more)[..|words + more| - 1] == words + prior;
      InImageSplit(words + prior, more[|more| - 1..], |mem|);
      assert words + more == (words + prior) + more[|more| - 1..];
      RelocateAppend(mem, base, words, prior);
    }
  }

  lemma InImageSplit(words: seq<nat>, more: seq<nat>, n: nat)
    requires InImage(words + more, n)
    ensures InImage(words, n) && InImage(more, n)
  {
    forall k | 0 <= k < |words| ensures words[k] < n { assert (words + more)[k] == words[k]; }
    forall k | 0 <= k < |more| ensures more[k] < n { assert (words + more)[|words| + k] == more[k]; }
  }

  /** One entry: the words it names, and where the next bitmap starts. */
  function Entry(e: nat, at: nat): seq<nat> {
    if e % 2 == 0 then [e / 8] else Marked(e / 2, at)
  }

  function Next(e: nat, at: nat): nat {
    if e % 2 == 0 then e / 8 + 1 else at + 63
  }

  lemma DecodeEntry(relr: seq<nat>, at: nat)
    requires relr != []
    ensures Decode(relr, at) == Entry(relr[0], at) + Decode(relr[1..], Next(relr[0], at))
  {
  }

  /** What is left of the memory's final contents when the words in `todo` remain. */
  ghost predicate Remaining(mem: seq<nat>, base: nat, todo: seq<nat>, final: seq<nat>) {
    InImage(todo, |mem|) && Relocate(mem, base, todo) == final
  }

  lemma RemainingStep(mem: seq<nat>, base: nat, now: seq<nat>, later: seq<nat>, final: seq<nat>)
    requires Remaining(mem, base, now + later, final)
    ensures InImage(now, |mem|) && Remaining(Relocate(mem, base, now), base, later, final)
  {
    RelocateAppend(mem, base, now, later);
  }

  lemma RelocateOne(mem: seq<nat>, base: nat, k: nat)
    requires k < |mem|
    ensures InImage([k], |mem|) && Relocate(mem, base, [k]) == mem[k := (mem[k] + base) % W]
  {
  }

  method AddBase(mem: array<nat>, base: nat, k: nat, ghost later: seq<nat>, ghost final: seq<nat>)
    requires Remaining(mem[..], base, [k] + later, final)
    modifies mem
    ensures Remaining(mem[..], base, later, final)
  {
    RemainingStep(mem[..], base, [k], later, final);
    ghost var before := mem[..];
    assert k == [k][0];
    RelocateOne(before, base, k);
    mem[k] := (mem[k] + base) % W;
    assert mem[..] == Relocate(before, base, [k]);
  }

  lemma MarkedStep(bitmap: nat, at: nat, later: seq<nat>)
    ensures bitmap == 0 ==> Marked(bitmap, at) + later == later
    ensures bitmap != 0 && bitmap % 2 == 0 ==> Marked(bitmap, at) == Marked(bitmap / 2, at + 1)
    ensures bitmap % 2 == 1 ==> Marked(bitmap, at) + later == [at] + (Marked(bitmap / 2, at + 1) + later)
  {
  }

  lemma DecodeNone(at: nat)
    ensures Decode([], at) == []
  {
  }

  /** The inner loop, the same in both sources. */
  method ApplyBitmap(mem: array<nat>, base: nat, entry: nat, relocAddr: nat, ghost later: seq<nat>, ghost final: seq<nat>)
    requires Remaining(mem[..], base, Marked(entry / 2, relocAddr) + later, final)
    modifies mem
    ensures Remaining(mem[..], base, later, final)
  {
    hide Marked, Remaining;
    var i, bitmap := 0, entry / 2;
    while bitmap != 0
      invariant bitmap >= 0 && Remaining(mem[..], base, Marked(bitmap, relocAddr + i) + later, final)
      decreases bitmap
    {
      MarkedStep(bitmap, relocAddr + i, later);
      if bitmap % 2 == 1 {
        AddBase(mem, base, relocAddr + i, Marked(bitmap / 2, relocAddr + i + 1) + later, final);
      }
      bitmap := bitmap / 2;
      i := i + 1;
    }
    MarkedStep(0, relocAddr + i, later);
  }

  /** `do_relr_relocs`; the loader's own object was relocated in stage 1. */
  method DoRelrRelocs(mem: array<nat>, base: nat, relr: seq<nat>, isLoader: bool)
    requires ValidStream(relr, mem.Length)
    modifies mem
    ensures mem[..] == if isLoader then old(mem[..]) else Relocate(old(mem[..]), base, Decode(relr, 0))
  {
    if isLoader {
      return;
    }
    ghost var final := Relocate(mem[..], base, Decode(relr, 0));
    hide Relocate, InImage, Decode, Marked, Remaining;
    RemainingStart(mem[..], base, Decode(relr, 0));
    assert relr[0..] == relr;
    var relocAddr, n := 0, 0;
    while n < |relr|
      invariant n <= |relr|
      invariant Remaining(mem[..], base, Decode(relr[n..], relocAddr), final)
    {
      DecodeEntry(relr[n..], relocAddr);
      assert relr[n..][1..] == relr[n + 1..];
      if relr[n] % 2 == 0 {
        relocAddr := relr[n] / 8;
        AddBase(mem, base, relocAddr, Decode(relr[n + 1..], relocAddr + 1), final);
        relocAddr := relocAddr + 1;
      } else {
        ApplyBitmap(mem, base, relr[n], relocAddr, Decode(relr[n + 1..], relocAddr + 63), final);
        relocAddr := relocAddr + 63;
      }
      n := n + 1;
    }
    assert relr[|relr|..] == [];
    DecodeNone(relocAddr);
    RemainingEnd(mem[..], base, final);
  }

  /** The loop of `_dlstart_c`, which counts the bytes of the table down. */
  method StageOneRelr(mem: array<nat>, base: nat, relr: seq<nat>)
    requires ValidStream(relr, mem.Length)
    modifies mem
    ensures mem[..] == Relocate(old(mem[..]), base, Decode(relr, 0))
  {
    ghost var final := Relocate(mem[..], base, Decode(relr, 0));
    hide Relocate, InImage, Decode, Marked, Remaining;
    RemainingStart(mem[..], base, Decode(relr, 0));
    assert relr[0..] == relr;
    var relrAddr, n, relSize := 0, 0, 8 * |relr|;
    while relSize != 0
      invariant 0 <= n <= |relr| && relSize == 8 * (|relr| - n)
      invariant Remaining(mem[..], base, Decode(relr[n..], relrAddr), final)
      decreases relSize
    {
      DecodeEntry(relr[n..], relrAddr);
      assert relr[n..][1..] == relr[n + 1..];
      if relr[n] % 2 == 1 {
        ApplyBitmap(mem, base, relr[n], relrAddr, Decode(relr[n + 1..], relrAddr + 63), final);
        relrAddr := relrAddr + 63;
      } else {
        AddBase(mem, base, relr[n] / 8, Decode(relr[n + 1..], relr[n] / 8 + 1), final);
        relrAddr := relr[n] / 8 + 1;
      }
      n, relSize := n + 1, relSize - 8;
    }
    assert relr[|relr|..] == [];
    DecodeNone(relrAddr);
    RemainingEnd(mem[..], base, final);
  }

  lemma RemainingStart(mem: seq<nat>, base: nat, words: seq<nat>)
    requires InImage(words, |mem|)
    ensures Remaining(mem, base, words, Relocate(mem, base, words))
  {
  }

  lemma RemainingEnd(mem: seq<nat>, base: nat, final: seq<nat>)
    requires Remaining(mem, base, [], final)
    ensures mem == final
  {
  }
}
