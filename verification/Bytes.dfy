/** Bytes and big-endian numbers. */
module Bytes {
  import opened Bits

  type byte = x: int | 0 <= x < 256

  function BigEndian(s: seq<byte>): nat {
    if s == [] then 0 else 256 * BigEndian(s[..|s| - 1]) + s[|s| - 1]
  }

  function ToBigEndian(x: nat, n: nat): (s: seq<byte>)
    ensures |s| == n
  {
    if n == 0 then [] else ToBigEndian(x / 256, n - 1) + [x % 256]
  }

  lemma {:induction false} BigEndianBound(s: seq<byte>)
    ensures BigEndian(s) < Pow2(8 * |s|)
  {
    if s != [] {
      BigEndianBound(s[..|s| - 1]);
      Pow2Byte(|s|);
    }
  }

  lemma Pow2Byte(n: nat)
    requires n > 0
    ensures Pow2(8 * n) == 256 * Pow2(8 * (n - 1))
  {
    hide Pow2;
    var k := 8 * (n - 1);
    Pow2Quad(k);
    Pow2Quad(k + 2);
    Pow2Quad(k + 4);
    Pow2Quad(k + 6);
  }

  lemma Pow2Quad(k: nat)
    ensures Pow2(k + 2) == 4 * Pow2(k)
  {
  }

  lemma Pow2Word()
    ensures Pow2(9) == 512 && Pow2(16) == 0x1_0000 && Pow2(32) == 0x1_0000_0000 && Pow2(64) == W
    ensures Pow2(56) == 0x100_0000_0000_0000 && Pow2(62) == 0x4000_0000_0000_0000 && Pow2(63) == 0x8000_0000_0000_0000
  {
    assert Pow2(8) == 256;
    Pow2Byte(2);
    Pow2Byte(3);
    Pow2Byte(4);
    Pow2Byte(5);
    Pow2Byte(6);
    Pow2Byte(7);
    Pow2Byte(8);
    assert Pow2(9) == 2 * Pow2(8);
    Pow2Quad(56);
    Pow2Quad(58);
    Pow2Quad(60);
  }

  /** A number that fits comes back. */
  lemma {:induction false} BigEndianRoundTrip(x: nat, n: nat)
    ensures BigEndian(ToBigEndian(x, n)) == x % Pow2(8 * n)
  {
    if n > 0 {
      BigEndianRoundTrip(x / 256, n - 1);
      var s := ToBigEndian(x, n);
      assert s[..n - 1] == ToBigEndian(x / 256, n - 1);
      Pow2Byte(n);
      ModBase(x, 256, Pow2(8 * (n - 1)));
    }
  }

  // ----- The weight of every byte -----

  /** Every byte with the weight 256 to the number of bytes after it. */
  function WeightedBytes(s: seq<byte>): nat {
    if s == [] then 0 else s[0] * Pow2(8 * (|s| - 1)) + WeightedBytes(s[1..])
  }

  lemma {:induction false} WeightedAppend(s: seq<byte>, b: byte)
    ensures WeightedBytes(s + [b]) == 256 * WeightedBytes(s) + b
  {
    if s == [] {
      assert [b][1..] == [];
    } else {
      WeightedAppend(s[1..], b);
      assert (s + [b])[1..] == s[1..] + [b];
      Pow2Byte(|s|);
      hide Pow2;
      var p := Pow2(8 * (|s| - 1));
      assert s[0] * (256 * p) == 256 * (s[0] * p);
    }
  }

  lemma {:induction false} BigEndianWeights(s: seq<byte>)
    ensures BigEndian(s) == WeightedBytes(s)
  {
    if s != [] {
      hide WeightedBytes;
      BigEndianWeights(s[..|s| - 1]);
      WeightedAppend(s[..|s| - 1], s[|s| - 1]);
      assert s == s[..|s| - 1] + [s[|s| - 1]];
    } else {
      assert WeightedBytes(s) == 0;
    }
  }

  lemma DivTwice(x: nat, b: nat, m: nat)
    requires b > 0 && m > 0
    ensures b * m > 0 && x / b / m == x / (b * m)
  {
    ModBase(x, b, m);
    var y := x / b;
    var q, r := y / m, y % m;
    assert y == m * q + r;
    assert b * y == b * (m * q) + b * r;
    assert b * (m * q) == (b * m) * q;
    MulMonotone(b, r, m - 1);
    MulDistributes(b, m, 1);
    DivModUnique(x, b * m, q, b * r + x % b);
  }

  /** Byte `i` of a number, the first one being the highest. */
  lemma {:induction false} ByteAt(x: nat, n: nat, i: nat)
    requires i < n
    ensures ToBigEndian(x, n)[i] == x / Pow2(8 * (n - 1 - i)) % 256
    decreases n
  {
    if i < n - 1 {
      ByteAt(x / 256, n - 1, i);
      Pow2Byte(n - 1 - i);
      hide Pow2;
      DivTwice(x, 256, Pow2(8 * (n - 2 - i)));
    }
  }

  // ----- Memory as a map from addresses to bytes -----

  function WriteAt(written: map<nat, byte>, pos: nat, data: seq<byte>): map<nat, byte>
    decreases |data|
  {
    if data == [] then written
    else WriteAt(written, pos, data[..|data| - 1])[pos + |data| - 1 := data[|data| - 1]]
  }

  lemma {:induction false} WriteEffect(written: map<nat, byte>, pos: nat, data: seq<byte>)
    ensures var w := WriteAt(written, pos, data);
            && (forall k: nat :: k in w <==> k in written || pos <= k < pos + |data|)
            && (forall k: nat :: k in w ==> w[k] == if pos <= k < pos + |data| then data[k - pos] else written[k])
    decreases |data|
  {
    if data != [] {
      WriteEffect(written, pos, data[..|data| - 1]);
    }
  }

  /** Memory holds `data` from `pos`. */
  ghost predicate Holds(mem: map<nat, byte>, pos: nat, data: seq<byte>) {
    forall k: nat :: pos <= k < pos + |data| ==> k in mem && mem[k] == data[k - pos]
  }

  lemma WriteHolds(mem: map<nat, byte>, pos: nat, data: seq<byte>)
    ensures Holds(WriteAt(mem, pos, data), pos, data)
  {
    hide WriteAt;
    WriteEffect(mem, pos, data);
  }

  /** A write elsewhere does not disturb what memory holds. */
  lemma WriteKeeps(mem: map<nat, byte>, pos: nat, data: seq<byte>, pos': nat, data': seq<byte>)
    requires Holds(mem, pos, data) && (pos + |data| <= pos' || pos' + |data'| <= pos)
    ensures Holds(WriteAt(mem, pos', data'), pos, data)
  {
    hide WriteAt;
    WriteEffect(mem, pos', data');
  }
}
