/** Images as a writer lays them out: header, first-level table, second-level tables and data, byte for byte, and what the
    reader makes of them. */
module Qcow2Layout {
  import opened Bits
  import opened Bytes
  import opened Qcow2

  // ----- Parts of a file -----

  function Concat(parts: seq<seq<byte>>): seq<byte> {
    if parts == [] then [] else Concat(parts[..|parts| - 1]) + parts[|parts| - 1]
  }

  /** Where part `k` starts. */
  function Offset(parts: seq<seq<byte>>, k: nat): nat
    requires k <= |parts|
  {
    |Concat(parts[..k])|
  }

  lemma OffsetStep(parts: seq<seq<byte>>, k: nat)
    requires k < |parts|
    ensures Offset(parts, 0) == 0 && Offset(parts, k + 1) == Offset(parts, k) + |parts[k]|
  {
    assert parts[..k + 1][..k] == parts[..k];
  }

  /** A part is found at its place. */
  lemma {:induction false} PartAt(parts: seq<seq<byte>>, k: nat)
    requires k < |parts|
    ensures Offset(parts, k) + |parts[k]| <= |Concat(parts)|
    ensures Concat(parts)[Offset(parts, k)..Offset(parts, k) + |parts[k]|] == parts[k]
  {
    var rest, last := parts[..|parts| - 1], parts[|parts| - 1];
    if k < |rest| {
      PartAt(rest, k);
      assert rest[..k] == parts[..k];
      assert (Concat(rest) + last)[..|Concat(rest)|] == Concat(rest);
    }
  }

  function Zeros(n: nat): (s: seq<byte>)
    ensures |s| == n
  {
    seq(n, _ => 0)
  }

  lemma {:induction false} ZerosRead(s: seq<byte>)
    requires forall i :: 0 <= i < |s| ==> s[i] == 0
    ensures BigEndian(s) == 0
  {
    if s != [] { ZerosRead(s[..|s| - 1]); }
  }

  /** Numbers as 64-bit words. */
  function Words(xs: seq<nat>): (parts: seq<seq<byte>>)
    ensures |parts| == |xs|
  {
    seq(|xs|, i requires 0 <= i < |xs| => ToBigEndian(xs[i], 8))
  }

  lemma {:induction false} WordsOffset(xs: seq<nat>, k: nat)
    requires k <= |xs|
    ensures Offset(Words(xs), k) == 8 * k
  {
    if k > 0 {
      WordsOffset(xs, k - 1);
      OffsetStep(Words(xs), k - 1);
    }
  }

  lemma WordsLength(xs: seq<nat>)
    ensures |Concat(Words(xs))| == 8 * |xs|
  {
    WordsOffset(xs, |xs|);
    assert Words(xs)[..|xs|] == Words(xs);
  }

  /** Word `k` of a part that holds words. */
  lemma WordIn(file: seq<byte>, at: nat, xs: seq<nat>, k: nat)
    requires k < |xs| && xs[k] < W && at + 8 * |xs| <= |file|
    requires file[at..at + 8 * |xs|] == Concat(Words(xs))
    ensures Word(file, at + 8 * k) == xs[k]
  {
    hide BigEndian, ToBigEndian, Concat, Pow2;
    PartAt(Words(xs), k);
    WordsOffset(xs, k);
    WordsLength(xs);
    SliceIn(file, at, 8 * |xs|, 8 * k, 8);
    Pow2Word();
    NumberRead(xs[k], 8);
  }

  lemma SliceIn(file: seq<byte>, at: nat, n: nat, k: nat, m: nat)
    requires at + n <= |file| && k + m <= n
    ensures file[at + k..at + k + m] == file[at..at + n][k..k + m]
  {
    var a, b := file[at + k..at + k + m], file[at..at + n][k..k + m];
    assert forall i :: 0 <= i < m ==> a[i] == file[at + k + i] == b[i];
  }

  lemma NumberRead(x: nat, n: nat)
    requires x < Pow2(8 * n)
    ensures BigEndian(ToBigEndian(x, n)) == x
  {
    hide Pow2, BigEndian, ToBigEndian;
    BigEndianRoundTrip(x, n);
    DivModUnique(x, Pow2(8 * n), 0, x);
  }

  // ----- Guest clusters and their entries -----

  /** A guest cluster as the writer sees it. */
  datatype Guest =
    | Hole
    | Cleared(offset: nat, copied: bool)      // reads as zero, with or without a host cluster
    | Allocated(offset: nat, copied: bool)
    | Squeezed(descriptor: nat)               // compressed: 62 bits of descriptor

  predicate ValidGuest(g: Guest) {
    match g
    case Hole => true
    case Cleared(offset, _) => offset % 512 == 0 && offset < 0x100_0000_0000_0000
    case Allocated(offset, _) => offset % 512 == 0 && 0 < offset < 0x100_0000_0000_0000
    case Squeezed(descriptor) => descriptor < 0x4000_0000_0000_0000
  }

  function Flag(copied: bool): nat {
    if copied then 0x8000_0000_0000_0000 else 0
  }

  /** QEMU docs/interop/qcow2.txt, "L2 table entry". */
  function EntryFor(g: Guest): nat {
    match g
    case Hole => 0
    case Cleared(offset, copied) => Flag(copied) + offset + 1
    case Allocated(offset, copied) => Flag(copied) + offset
    case Squeezed(descriptor) => 0x4000_0000_0000_0000 + descriptor
  }

  /** What a reader that cannot decompress has to answer. */
  function Answer(g: Guest): Result<Location> {
    match g
    case Hole => Ok(Zero)
    case Cleared(_, _) => Ok(Zero)
    case Allocated(offset, _) => Ok(Data(offset))
    case Squeezed(_) => Err(CompressedCluster)
  }

  lemma OffsetRead(offset: nat, low: nat, copied: bool)
    requires offset % 512 == 0 && offset < 0x100_0000_0000_0000 && low < 512
    ensures HostOffset(Flag(copied) + offset + low) == offset && !Compressed(Flag(copied) + offset + low)
    ensures (Flag(copied) + offset + low) % 2 == low % 2 && Flag(copied) + offset + low < W
  {
    var k := offset / 512;
    assert (Flag(copied) + offset + low) / 512 == k + if copied then 0x40_0000_0000_0000 else 0;
    assert (Flag(copied) + offset + low) / L2_COMPRESSED == if copied then 2 else 0;
  }

  lemma EntryRead(g: Guest)
    requires ValidGuest(g)
    ensures EntryFor(g) < W && LocationOf(EntryFor(g)) == Answer(g)
  {
    match g
    case Hole =>
    case Cleared(offset, copied) => OffsetRead(offset, 1, copied);
    case Allocated(offset, copied) => OffsetRead(offset, 0, copied);
    case Squeezed(descriptor) => assert (0x4000_0000_0000_0000 + descriptor) / L2_COMPRESSED == 1;
  }

  /** Of an arbitrary entry bit 62 alone decides whether it is refused, and then bit 0 and the offset whether it is a
      hole. */
  lemma EntryBits(entry: nat)
    ensures LocationOf(entry) == Err(CompressedCluster) <==> BitSet(entry, 62)
    ensures !BitSet(entry, 62) ==>
      LocationOf(entry) == if BitSet(entry, 0) || And(entry, OFFSET_MASK) == 0 then Ok(Zero) else Ok(Data(And(entry, OFFSET_MASK)))
  {
    hide And, Pow2;
    Pow2Word();
    MaskIsCompressed(entry);
    MaskIsHostOffset(entry);
    AndBit(entry, 62);
  }

  // ----- The file -----

  /** Version, logarithm of the cluster size, size of the disk, its clusters, and what follows the tables. */
  datatype Disk = Disk(version: nat, clusterBits: nat, size: nat, clusters: seq<Guest>, data: seq<byte>)

  function ClusterSize(d: Disk): nat {
    Pow2(d.clusterBits)
  }

  /** Entries of a second-level table. */
  function PerTable(d: Disk): nat {
    ClusterSize(d) / 8
  }

  function CeilDiv(a: nat, b: nat): nat
    requires b > 0
  {
    (a + b - 1) / b
  }

  /** Second-level tables, and clusters for the first-level table. */
  function Tables(d: Disk): nat
    requires PerTable(d) > 0
  {
    CeilDiv(|d.clusters|, PerTable(d))
  }

  function TopClusters(d: Disk): nat
    requires PerTable(d) > 0
  {
    CeilDiv(8 * Tables(d), ClusterSize(d))
  }

  /** Where the second-level tables start, one after the other. */
  function TablesAt(d: Disk): nat
    requires PerTable(d) > 0
  {
    ClusterSize(d) + TopClusters(d) * ClusterSize(d)
  }

  function TableAt(d: Disk, t: nat): nat
    requires PerTable(d) > 0
  {
    TablesAt(d) + t * ClusterSize(d)
  }

  ghost predicate ValidDisk(d: Disk) {
    && d.version in {2, 3} && 9 <= d.clusterBits <= 21 && d.size < W && PerTable(d) > 0
    && (forall i :: 0 <= i < |d.clusters| ==> ValidGuest(d.clusters[i]))
    && Tables(d) < 0x1_0000_0000
    && TablesAt(d) + Tables(d) * ClusterSize(d) <= 0x100_0000_0000_0000
    && |File(d)| < FILE_LIMIT
  }

  /** The first-level table: every second-level table in place, marked as not shared. */
  function TopEntries(d: Disk): (xs: seq<nat>)
    requires PerTable(d) > 0
    ensures |xs| == Tables(d)
  {
    seq(Tables(d), t requires 0 <= t < Tables(d) => Flag(true) + TableAt(d, t))
  }

  /** The entries of all second-level tables; beyond the disk they are holes. */
  function Entries(d: Disk): (xs: seq<nat>)
    requires PerTable(d) > 0
    ensures |xs| == Tables(d) * PerTable(d)
  {
    seq(Tables(d) * PerTable(d), i requires 0 <= i < Tables(d) * PerTable(d) => if i < |d.clusters| then EntryFor(d.clusters[i]) else 0)
  }

  /** Magic number, version, backing file, its name's length, cluster bits, size, encryption, number of first-level
      entries and where they are; then the tables and the data. */
  function Parts(d: Disk): seq<seq<byte>>
    requires PerTable(d) > 0
  {
    [ [0x51, 0x46, 0x49, 0xfb],
      ToBigEndian(d.version, 4),
      ToBigEndian(0, 8),
      ToBigEndian(0, 4),
      ToBigEndian(d.clusterBits, 4),
      ToBigEndian(d.size, 8),
      ToBigEndian(0, 4),
      ToBigEndian(Tables(d), 4),
      ToBigEndian(ClusterSize(d), 8),
      Zeros(if ClusterSize(d) >= 48 then ClusterSize(d) - 48 else 0),
      Concat(Words(TopEntries(d))),
      Zeros(Padding(d)),
      Concat(Words(Entries(d))),
      d.data ]
  }

  function Padding(d: Disk): nat
    requires PerTable(d) > 0
  {
    var room := TopClusters(d) * ClusterSize(d);
    if room >= 8 * Tables(d) then room - 8 * Tables(d) else 0
  }

  function File(d: Disk): seq<byte>
    requires PerTable(d) > 0
  {
    Concat(Parts(d))
  }

  // ----- Reading it back -----

  lemma Sizes(d: Disk)
    requires 9 <= d.clusterBits
    ensures ClusterSize(d) >= 512 && ClusterSize(d) % 512 == 0 && ClusterSize(d) == 8 * PerTable(d)
  {
    hide Pow2;
    Pow2Add(9, d.clusterBits - 9);
    Pow2Word();
    Multiple(Pow2(d.clusterBits), Pow2(d.clusterBits - 9));
  }

  lemma Multiple(x: nat, k: nat)
    requires x == 512 * k && k > 0
    ensures x >= 512 && x % 512 == 0 && x == 8 * (x / 8)
  {
    DivModUnique(x, 512, k, 0);
    DivModUnique(x, 8, 64 * k, 0);
  }

  lemma CeilDivEnough(a: nat, b: nat)
    requires b > 0
    ensures a <= CeilDiv(a, b) * b
  {
    var q, r := (a + b - 1) / b, (a + b - 1) % b;
    assert a + b - 1 == b * q + r;
  }

  lemma Rooms(d: Disk)
    requires 9 <= d.clusterBits && PerTable(d) > 0
    ensures |d.clusters| <= Tables(d) * PerTable(d) && 8 * Tables(d) + Padding(d) == TopClusters(d) * ClusterSize(d)
  {
    CeilDivEnough(|d.clusters|, PerTable(d));
    CeilDivEnough(8 * Tables(d), ClusterSize(d));
  }

  /** The places of the header's fields. */
  lemma HeaderOffsets(d: Disk)
    requires 9 <= d.clusterBits && PerTable(d) > 0
    ensures var parts := Parts(d);
            && |parts| == 14
            && Offset(parts, 0) == 0 && Offset(parts, 1) == 4 && Offset(parts, 2) == 8 && Offset(parts, 4) == 20
            && Offset(parts, 5) == 24 && Offset(parts, 6) == 32 && Offset(parts, 7) == 36 && Offset(parts, 8) == 40
            && Offset(parts, 9) == 48 && Offset(parts, 10) == ClusterSize(d)
  {
    hide Offset, Concat, ToBigEndian, ClusterSize, Words;
    Sizes(d);
    var parts := Parts(d);
    OffsetStep(parts, 0);
    OffsetStep(parts, 1);
    OffsetStep(parts, 2);
    OffsetStep(parts, 3);
    OffsetStep(parts, 4);
    OffsetStep(parts, 5);
    OffsetStep(parts, 6);
    OffsetStep(parts, 7);
    OffsetStep(parts, 8);
    OffsetStep(parts, 9);
  }

  lemma TableOffsets(d: Disk)
    requires 9 <= d.clusterBits && PerTable(d) > 0
    ensures var parts := Parts(d);
            && |parts| == 14 && Offset(parts, 10) == ClusterSize(d) && Offset(parts, 12) == TablesAt(d)
            && |parts[10]| == 8 * Tables(d) && |parts[12]| == 8 * |Entries(d)|
            && parts[10] == Concat(Words(TopEntries(d))) && parts[12] == Concat(Words(Entries(d)))
  {
    hide Offset, Concat, ToBigEndian, ClusterSize, Words, Tables, TopClusters;
    HeaderOffsets(d);
    Rooms(d);
    var parts := Parts(d);
    WordsLength(TopEntries(d));
    WordsLength(Entries(d));
    OffsetStep(parts, 10);
    OffsetStep(parts, 11);
  }

  /** A number in the header. */
  lemma FieldRead(d: Disk, k: nat, at: nat, x: nat, n: nat)
    requires PerTable(d) > 0 && k < |Parts(d)| && Offset(Parts(d), k) == at && Parts(d)[k] == ToBigEndian(x, n) && x < Pow2(8 * n)
    ensures at + n <= |File(d)| && BigEndian(File(d)[at..at + n]) == x
  {
    hide Offset, Concat, ToBigEndian, BigEndian, Parts, Pow2;
    PartAt(Parts(d), k);
    NumberRead(x, n);
  }

  lemma MagicRead(d: Disk)
    requires 9 <= d.clusterBits && PerTable(d) > 0
    ensures |File(d)| >= 4 && Field32(File(d), 0) == MAGIC
  {
    HeaderOffsets(d);
    PartAt(Parts(d), 0);
    hide Offset, Concat, ToBigEndian, ClusterSize, Words;
    assert Parts(d)[0] == [0x51, 0x46, 0x49, 0xfb];
    hide BigEndian;
    FourBytes(0x51, 0x46, 0x49, 0xfb);
  }

  lemma FourBytes(a: byte, b: byte, c: byte, d: byte)
    ensures BigEndian([a, b, c, d]) == 0x100_0000 * a + 0x1_0000 * b + 0x100 * c + d
  {
    assert [a, b, c, d][..3] == [a, b, c] && [a, b, c][..2] == [a, b] && [a, b][..1] == [a];
    assert BigEndian([a]) == a by { assert [a][..0] == []; }
    assert BigEndian([a, b]) == 0x100 * a + b;
    assert BigEndian([a, b, c]) == 0x1_0000 * a + 0x100 * b + c;
  }

  /** The reader's image of the file. */
  function ImageOf(d: Disk): Image
    requires PerTable(d) > 0
  {
    Image(File(d), d.clusterBits, ClusterSize(d), d.size, TopEntries(d))
  }

  lemma Numbers(x: nat)
    ensures x < 0x1_0000_0000 ==> x < Pow2(8 * 4)
    ensures x < W ==> x < Pow2(8 * 8)
  {
    hide Pow2;
    Pow2Word();
  }

  /** Every field of the header comes back. */
  lemma HeaderRead(d: Disk)
    requires ValidDisk(d)
    ensures |File(d)| >= 72 && Field32(File(d), 4) == d.version && Word(File(d), 8) == 0 && Field32(File(d), 20) == d.clusterBits
    ensures Word(File(d), 24) == d.size && Field32(File(d), 32) == 0 && Field32(File(d), 36) == Tables(d)
    ensures Word(File(d), 40) == ClusterSize(d)
  {
    hide File, ClusterSize, BigEndian, ToBigEndian, Offset, Concat, Words, Tables, Pow2, TablesAt;
    HeaderOffsets(d);
    SizeBelow(d);
    Numbers(d.version);
    Numbers(d.clusterBits);
    Numbers(d.size);
    Numbers(Tables(d));
    Numbers(ClusterSize(d));
    Numbers(0);
    FieldRead(d, 1, 4, d.version, 4);
    FieldRead(d, 2, 8, 0, 8);
    FieldRead(d, 4, 20, d.clusterBits, 4);
    FieldRead(d, 5, 24, d.size, 8);
    FieldRead(d, 6, 32, 0, 4);
    FieldRead(d, 7, 36, Tables(d), 4);
    FieldRead(d, 8, 40, ClusterSize(d), 8);
    PaddedHeader(d);
  }

  lemma SizeBelow(d: Disk)
    requires d.clusterBits <= 21
    ensures ClusterSize(d) <= 0x20_0000
  {
    hide Pow2;
    Pow2Monotone(d.clusterBits, 21);
    assert Pow2(21) == 0x20_0000 by { Pow2Word(); Pow2Quad(16); Pow2Quad(18); Pow2Double(20); }
  }

  lemma Pow2Double(k: nat)
    ensures Pow2(k + 1) == 2 * Pow2(k)
  {
  }

  /** What is behind the header up to the first cluster boundary is zero. */
  lemma PaddedHeader(d: Disk)
    requires 9 <= d.clusterBits && PerTable(d) > 0
    ensures |File(d)| >= ClusterSize(d) >= 512 && forall i :: 48 <= i < ClusterSize(d) ==> File(d)[i] == 0
  {
    hide ClusterSize, BigEndian, ToBigEndian, Offset, Concat, Words, Tables;
    Sizes(d);
    HeaderOffsets(d);
    PartAt(Parts(d), 9);
    var zeros := File(d)[48..ClusterSize(d)];
    forall i | 48 <= i < ClusterSize(d) ensures File(d)[i] == 0 {
      assert zeros[i - 48] == 0;
    }
  }

  lemma FeaturesRead(d: Disk)
    requires 9 <= d.clusterBits && PerTable(d) > 0
    ensures |File(d)| >= 104 && IncompatibleBits(File(d)) == 0
  {
    hide File, ClusterSize, BigEndian;
    PaddedHeader(d);
    ZerosRead(File(d)[72..80]);
  }

  /** The tables come back. */
  lemma TablesRead(d: Disk)
    requires ValidDisk(d)
    ensures ClusterSize(d) + 8 * Tables(d) <= |File(d)| && Table(File(d), ClusterSize(d), Tables(d)) == TopEntries(d)
    ensures TablesAt(d) + 8 * |Entries(d)| <= |File(d)|
    ensures forall i :: 0 <= i < |Entries(d)| ==> Word(File(d), TablesAt(d) + 8 * i) == Entries(d)[i]
  {
    hide ClusterSize, Word, Offset, Concat, Words, Parts, Tables, TablesAt, Pow2, ValidDisk, EntryFor;
    DiskSizes(d);
    TableOffsets(d);
    PartAt(Parts(d), 10);
    PartAt(Parts(d), 12);
    forall t | 0 <= t < Tables(d) ensures Word(File(d), ClusterSize(d) + 8 * t) == TopEntries(d)[t] {
      TopBelow(d, t);
      WordIn(File(d), ClusterSize(d), TopEntries(d), t);
    }
    forall i | 0 <= i < |Entries(d)| ensures Word(File(d), TablesAt(d) + 8 * i) == Entries(d)[i] {
      EntryBelow(d, i);
      WordIn(File(d), TablesAt(d), Entries(d), i);
    }
  }

  lemma DiskSizes(d: Disk)
    requires ValidDisk(d)
    ensures 9 <= d.clusterBits <= 21 && PerTable(d) > 0
  {
    hide File, Pow2;
  }

  lemma EntryBelow(d: Disk, i: nat)
    requires ValidDisk(d) && i < |Entries(d)|
    ensures Entries(d)[i] < W
  {
    hide File, EntryFor, Pow2, ClusterSize, TablesAt, Tables;
    if i < |d.clusters| { EntryRead(d.clusters[i]); }
  }

  /** Where second-level table `t` is. */
  lemma TopBelow(d: Disk, t: nat)
    requires ValidDisk(d) && t < Tables(d)
    ensures TopEntries(d)[t] == Flag(true) + TableAt(d, t) < W && HostOffset(TopEntries(d)[t]) == TableAt(d, t) > 0
    ensures TableAt(d, t) + ClusterSize(d) <= TablesAt(d) + Tables(d) * ClusterSize(d)
  {
    hide File, EntryFor, Pow2, ClusterSize, HostOffset, Tables, TableAt, TablesAt, PerTable;
    Sizes(d);
    TablePlace(d, t);
    OffsetRead(TableAt(d, t), 0, true);
  }

  lemma TablePlace(d: Disk, t: nat)
    requires 9 <= d.clusterBits && PerTable(d) > 0 && t < Tables(d)
    ensures TableAt(d, t) % 512 == 0 && TableAt(d, t) >= 512
    ensures TableAt(d, t) + ClusterSize(d) <= TablesAt(d) + Tables(d) * ClusterSize(d)
  {
    hide Pow2, ClusterSize, Tables, TopClusters, PerTable;
    Sizes(d);
    var size := ClusterSize(d);
    RowIn(size, t, Tables(d));
    Aligned(size, TopClusters(d));
    Aligned(size, t);
    var top, row := TopClusters(d) * size, t * size;
    AlignedSum(size, top, row);
    assert TableAt(d, t) == size + top + row;
  }

  lemma AlignedSum(a: nat, b: nat, c: nat)
    requires a % 512 == 0 && b % 512 == 0 && c % 512 == 0
    ensures (a + b + c) % 512 == 0
  {
  }

  lemma RowIn(size: nat, t: nat, n: nat)
    requires t < n
    ensures 0 <= t * size && t * size + size <= n * size
  {
    MulMonotone(size, t + 1, n);
  }

  lemma Aligned(cs: nat, k: nat)
    requires cs % 512 == 0
    ensures k * cs % 512 == 0
  {
    var m := cs / 512;
    assert k * cs == 512 * (k * m);
  }

  /** Cluster `c` has its entry in the table and at the place the reader computes. */
  lemma EntryPlace(d: Disk, c: nat)
    requires 9 <= d.clusterBits && PerTable(d) > 0
    ensures c / PerTable(d) < Tables(d) <==> c < |Entries(d)|
    ensures TableAt(d, c / PerTable(d)) + 8 * (c % PerTable(d)) == TablesAt(d) + 8 * c
  {
    hide Pow2, ClusterSize, Tables, TablesAt, PerTable;
    Sizes(d);
    PlaceIn(c, PerTable(d), Tables(d), ClusterSize(d));
  }

  lemma PlaceIn(c: nat, per: nat, n: nat, size: nat)
    requires per > 0 && size == 8 * per
    ensures c / per < n <==> c < n * per
    ensures c / per * size + 8 * (c % per) == 8 * c
  {
    var q, r := c / per, c % per;
    assert c == per * q + r;
    assert q * size == 8 * (per * q);
    if q < n { MulMonotone(per, q + 1, n); } else { MulMonotone(per, n, q); }
  }

  /** The reader accepts the file and has the writer's numbers. */
  lemma LaidOutOpens(d: Disk)
    requires ValidDisk(d)
    ensures var file := File(d);
            && Supported(file)
            && Image(file, Field32(file, 20), Pow2(Field32(file, 20)), Word(file, 24), Table(file, Word(file, 40), Field32(file, 36))) == ImageOf(d)
  {
    hide File, Word, Field32, Pow2, Tables, TablesAt, Table, IncompatibleBits, TopEntries;
    DiskSizes(d);
    HeaderRead(d);
    MagicRead(d);
    FeaturesRead(d);
    TablesRead(d);
  }

  lemma LaidOutFits(d: Disk)
    requires ValidDisk(d)
    ensures TablesAt(d) + Tables(d) * ClusterSize(d) <= |File(d)|
  {
    hide File, Word, Pow2, Tables, TablesAt, ClusterSize, TopEntries, ValidDisk, PerTable;
    DiskSizes(d);
    TablesRead(d);
    Sizes(d);
    var n, per := Tables(d), PerTable(d);
    assert 8 * (n * per) == n * (8 * per);
  }

  /** For every guest cluster the walk through the file gives what the writer laid out, and holes beyond. */
  lemma LaidOut(d: Disk, c: nat)
    requires ValidDisk(d)
    ensures Lookup(ImageOf(d), c) == if c < |d.clusters| then Answer(d.clusters[c]) else Ok(Zero)
  {
    hide File, Word, Pow2, Tables, TablesAt, TableAt, LocationOf, HostOffset, EntryFor, Answer;
    DiskSizes(d);
    EntryPlace(d, c);
    Rooms(d);
    var per := PerTable(d);
    if c / per < Tables(d) {
      TopBelow(d, c / per);
      TablesRead(d);
      LaidOutFits(d);
      EntryAnswer(d, c);
    }
  }

  lemma EntryAnswer(d: Disk, c: nat)
    requires ValidDisk(d) && c < |Entries(d)|
    ensures LocationOf(Entries(d)[c]) == if c < |d.clusters| then Answer(d.clusters[c]) else Ok(Zero)
  {
    hide File, Pow2, Tables, TablesAt, EntryFor, ClusterSize, Answer;
    if c < |d.clusters| { EntryRead(d.clusters[c]); } else { HoleRead(); }
  }

  lemma HoleRead()
    ensures LocationOf(0) == Ok(Zero)
  {
    EntryRead(Hole);
  }

  /** The reader on such a file. */
  method OpenAndResolve(ghost d: Disk, file: seq<byte>, c: nat) returns (r: Result<Location>)
    requires ValidDisk(d) && file == File(d)
    ensures r == if c < |d.clusters| then Answer(d.clusters[c]) else Ok(Zero)
  {
    hide File, Word, Field32, Pow2, Table, Lookup, Answer, Supported, ImageOf;
    LaidOutOpens(d);
    LaidOut(d, c);
    assert |file| < FILE_LIMIT by { FileBelow(d); }
    var image := Open(file);
    r := image.value.ResolveCluster(c);
  }

  lemma FileBelow(d: Disk)
    requires ValidDisk(d)
    ensures |File(d)| < FILE_LIMIT
  {
  }

  // ----- The disk's bytes -----

  /** Cluster `c` of the disk, holes beyond the ones given. */
  function GuestAt(d: Disk, c: nat): Guest {
    if c < |d.clusters| then d.clusters[c] else Hole
  }

  /** The reader can give its bytes: it is not compressed, and its host cluster is inside the file. */
  predicate Given(d: Disk, g: Guest)
    requires PerTable(d) > 0
  {
    !g.Squeezed? && (g.Allocated? ==> g.offset + ClusterSize(d) <= |File(d)|)
  }

  /** Byte `k` of a cluster. */
  function ByteOf(d: Disk, g: Guest, k: nat): byte
    requires PerTable(d) > 0 && Given(d, g) && k < ClusterSize(d)
  {
    if g.Allocated? then File(d)[g.offset + k] else 0
  }

  lemma LaidOutClusters(d: Disk, c: nat)
    requires ValidDisk(d)
    ensures Readable(ImageOf(d), c) <==> Given(d, GuestAt(d, c))
    ensures Given(d, GuestAt(d, c)) ==>
      forall k :: 0 <= k < ClusterSize(d) ==> Cluster(ImageOf(d), c).value[k] == ByteOf(d, GuestAt(d, c), k)
  {
    hide File, Pow2, Lookup, Tables, TablesAt, ValidDisk, TopEntries;
    DiskSizes(d);
    LaidOut(d, c);
  }

  /** Converting such a file gives the disk, and fails exactly when a cluster of it cannot be given or no file can have
      its size. */
  method OpenAndConvert(ghost d: Disk, file: seq<byte>) returns (r: Result<RawFile>)
    requires ValidDisk(d) && file == File(d)
    ensures r.Ok? <==> d.size < FILE_LIMIT && forall c :: 0 <= c && StartOf(ImageOf(d), c) < d.size ==> Given(d, GuestAt(d, c))
    ensures r.Ok? ==> r.value.len == d.size
    ensures r.Ok? ==> forall c: nat, k :: 0 <= k < ClusterSize(d) && StartOf(ImageOf(d), c) + k < d.size ==>
      Given(d, GuestAt(d, c)) && r.value.At(StartOf(ImageOf(d), c) + k) == ByteOf(d, GuestAt(d, c), k)
  {
    hide File, Word, Field32, Pow2, Table, Lookup, Supported, StartOf, Readable, Given, IsDisk, Sparse, FirstFailure;
    LaidOutOpens(d);
    assert |file| < FILE_LIMIT by { FileBelow(d); }
    var image := Open(file);
    assert image.value.img == ImageOf(d);
    r := image.value.ConvertToRaw();
    forall c: nat ensures Readable(ImageOf(d), c) <==> Given(d, GuestAt(d, c)) {
      LaidOutClusters(d, c);
    }
    if r.Ok? {
      ghost var raw := r.value;
      forall c: nat, k | 0 <= k < ClusterSize(d) && StartOf(ImageOf(d), c) + k < d.size
        ensures Given(d, GuestAt(d, c)) && raw.At(StartOf(ImageOf(d), c) + k) == ByteOf(d, GuestAt(d, c), k)
      {
        ConvertedByte(d, raw, c, k);
      }
      DiskLength(ImageOf(d), raw);
    }
  }

  lemma DiskLength(img: Image, raw: RawFile)
    requires IsDisk(img, raw)
    ensures raw.len == img.virtualSize
  {
  }

  lemma ConvertedByte(d: Disk, raw: RawFile, c: nat, k: nat)
    requires ValidDisk(d) && IsDisk(ImageOf(d), raw) && k < ClusterSize(d) && StartOf(ImageOf(d), c) + k < d.size
    requires Readable(ImageOf(d), c)
    ensures Given(d, GuestAt(d, c)) && raw.At(StartOf(ImageOf(d), c) + k) == ByteOf(d, GuestAt(d, c), k)
  {
    hide File, Pow2, Lookup, Tables, TablesAt, ValidDisk, TopEntries, Given, Cluster;
    DiskSizes(d);
    LaidOutClusters(d, c);
    PositionIn(c, k, ClusterSize(d));
  }

  lemma PositionIn(c: nat, k: nat, size: nat)
    requires k < size
    ensures (c * size + k) / size == c && (c * size + k) % size == k
  {
    DivModUnique(c * size + k, size, c, k);
  }
}
