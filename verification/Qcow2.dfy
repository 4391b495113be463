/** The read-only qcow2 reader: a two-level table walk behind a one-entry cache of
    the last second-level table, sparse conversion to raw, and random reads. */
module Qcow2 {
  import opened Bits
  import opened Bytes

  const MAGIC: nat := 0x5146_49fb
  const OFFSET_MASK: nat := 0x00ff_ffff_ffff_fe00
  const L2_COMPRESSED: nat := 0x4000_0000_0000_0000
  const L2_ZERO: nat := 1
  // Files are shorter than this: offsets and lengths are signed 64-bit numbers.
  const FILE_LIMIT: nat := 0x8000_0000_0000_0000

  datatype Error =
    | Io
    | BadMagic(magic: nat)
    | UnsupportedVersion(version: nat)
    | BadClusterBits(bits: nat)
    | Encrypted(method_: nat)
    | HasBackingFile
    | CompressedCluster
    | UnsupportedIncompatibleFeatures(bits: nat)
    | TruncatedHeader
    | OffsetOutOfRange(offset: nat)

  datatype Result<+T> = Ok(value: T) | Err(error: Error)

  /** Where a guest cluster lives. */
  datatype Location = Zero | Data(offset: nat)

  // ----- What an image means: QEMU docs/interop/qcow2.txt, "Cluster mapping" -----

  type Positive = n: int | 0 < n witness 1

  datatype Image = Image(file: seq<byte>, clusterBits: nat, clusterSize: Positive, virtualSize: nat, l1: seq<nat>)

  /** What `open` guarantees. */
  ghost predicate ValidImage(img: Image) {
    && |img.file| < FILE_LIMIT
    && 9 <= img.clusterBits <= 21 && img.clusterSize == Pow2(img.clusterBits)
    && img.virtualSize < W
    && forall i :: 0 <= i < |img.l1| ==> img.l1[i] < W
  }

  function Word(file: seq<byte>, offset: nat): nat
    requires offset + 8 <= |file|
  {
    BigEndian(file[offset..offset + 8])
  }

  /** The host offset of a table entry: bits 9 to 55. */
  function HostOffset(entry: nat): nat {
    entry / 512 % 0x8000_0000_0000 * 512
  }

  predicate Compressed(entry: nat) {
    entry / L2_COMPRESSED % 2 == 1
  }

  /** The walk for guest cluster `c`, straight from the file. */
  function Lookup(img: Image, c: nat): Result<Location> {
    var perTable := img.clusterSize / 8;
    if perTable == 0 || c / perTable >= |img.l1| then Ok(Zero)
    else
      var table := HostOffset(img.l1[c / perTable]);
      if table == 0 then Ok(Zero)
      else if table + img.clusterSize > |img.file| then Err(OffsetOutOfRange(table))
      else
        LocationOf(Word(img.file, table + 8 * (c % perTable)))
  }

  /** What an entry of a second-level table says. */
  function LocationOf(entry: nat): Result<Location> {
    if Compressed(entry) then Err(CompressedCluster)
    else if entry % 2 == 1 || HostOffset(entry) == 0 then Ok(Zero)
    else Ok(Data(HostOffset(entry)))
  }

  /** The bytes of guest cluster `c`; holes read as zero. */
  function Cluster(img: Image, c: nat): (r: Result<seq<byte>>)
    ensures r.Ok? ==> |r.value| == img.clusterSize
  {
    match Lookup(img, c)
    case Err(e) => Err(e)
    case Ok(Zero) => Ok(seq(img.clusterSize, _ => 0))
    case Ok(Data(offset)) =>
      if offset + img.clusterSize > |img.file| then Err(OffsetOutOfRange(offset))
      else Ok(img.file[offset..offset + img.clusterSize])
  }

  predicate Readable(img: Image, c: nat) {
    Cluster(img, c).Ok?
  }

  /** The cluster of a guest position, and the position within it. */
  function ClusterAt(img: Image, pos: nat): nat {
    pos / img.clusterSize
  }

  function WithinCluster(img: Image, pos: nat): (k: nat)
    ensures k < img.clusterSize
  {
    pos % img.clusterSize
  }

  /** What the guest reads at `pos`, where that is readable. */
  function GuestByte(img: Image, pos: nat): byte {
    if Readable(img, ClusterAt(img, pos)) then Cluster(img, ClusterAt(img, pos)).value[WithinCluster(img, pos)] else 0
  }

  // ----- The masks the code applies are these fields -----

  lemma MaskIsHostOffset(entry: nat)
    ensures And(entry, OFFSET_MASK) == HostOffset(entry)
  {
    hide And, Pow2;
    Pow2Word();
    AndMask(entry, 56, 9);
    FieldOf(entry, 512, 0x8000_0000_0000);
  }

  lemma MaskIsCompressed(entry: nat)
    ensures And(entry, L2_COMPRESSED) != 0 <==> Compressed(entry)
  {
    hide And, Pow2;
    Pow2Word();
    AndMask(entry, 63, 62);
    FieldOf(entry, L2_COMPRESSED, 2);
  }

  // ----- The reader -----

  /** `n` table entries as the file holds them from `offset`. */
  function Table(file: seq<byte>, offset: nat, n: nat): (t: seq<nat>)
    requires offset + 8 * n <= |file|
    ensures |t| == n
  {
    seq(n, i requires 0 <= i < n => Word(file, offset + 8 * i))
  }

  method ReadTable(file: seq<byte>, offset: nat, n: nat) returns (table: seq<nat>)
    requires offset + 8 * n <= |file|
    ensures table == Table(file, offset, n)
  {
    table := [];
    for i := 0 to n
      invariant |table| == i && forall k :: 0 <= k < i ==> table[k] == Word(file, offset + 8 * k)
    {
      table := table + [Word(file, offset + 8 * i)];
    }
  }

  /** A raw file written with seeks over holes: what was written, and the final length. */
  datatype RawFile = RawFile(written: map<nat, byte>, len: nat) {
    function At(pos: nat): byte {
      if pos in written then written[pos] else 0
    }
  }

  // ----- The header -----

  function Field32(file: seq<byte>, offset: nat): nat
    requires offset + 4 <= |file|
  {
    BigEndian(file[offset..offset + 4])
  }

  /** The incompatible feature bits, which version 2 and short headers do not have. */
  function IncompatibleBits(file: seq<byte>): nat
    requires |file| >= 72
  {
    if Field32(file, 4) >= 3 && |file| >= 104 then Word(file, 72) else 0
  }

  /** A header this reader supports: no backing file, no encryption, no incompatible
      feature but "dirty", and a first-level table inside the file. */
  predicate Supported(file: seq<byte>) {
    && |file| >= 72 && Field32(file, 0) == MAGIC && Field32(file, 4) in {2, 3}
    && Word(file, 8) == 0 && 9 <= Field32(file, 20) <= 21 && Field32(file, 32) == 0
    && IncompatibleBits(file) / 2 == 0
    && Word(file, 40) + 8 * Field32(file, 36) <= |file|
  }

  /** An error names a field of the header that is not supported. */
  predicate Refuses(file: seq<byte>, e: Error) {
    match e
    case Io => false
    case TruncatedHeader => |file| < 72
    case BadMagic(m) => |file| >= 72 && m == Field32(file, 0) != MAGIC
    case UnsupportedVersion(v) => |file| >= 72 && v == Field32(file, 4) && v != 2 && v != 3
    case HasBackingFile => |file| >= 72 && Word(file, 8) != 0
    case BadClusterBits(b) => |file| >= 72 && b == Field32(file, 20) && (b < 9 || b > 21)
    case Encrypted(m) => |file| >= 72 && m == Field32(file, 32) != 0
    case UnsupportedIncompatibleFeatures(b) => |file| >= 72 && b == IncompatibleBits(file) / 2 * 2 != 0
    case OffsetOutOfRange(o) => |file| >= 72 && o == Word(file, 40) && o + 8 * Field32(file, 36) > |file|
    case CompressedCluster => false
  }

  method Open(file: seq<byte>) returns (r: Result<Reader>)
    requires |file| < FILE_LIMIT
    ensures r.Ok? <==> Supported(file)
    ensures r.Err? ==> Refuses(file, r.error)
    ensures r.Ok? ==>
      && fresh(r.value) && r.value.Valid()
      && r.value.img == Image(file, Field32(file, 20), Pow2(Field32(file, 20)), Word(file, 24),
                              Table(file, Word(file, 40), Field32(file, 36)))
  {
    if |file| < 72 { return Err(TruncatedHeader); }
    var magic := Field32(file, 0);
    if magic != MAGIC { return Err(BadMagic(magic)); }
    var version := Field32(file, 4);
    if version != 2 && version != 3 { return Err(UnsupportedVersion(version)); }
    if Word(file, 8) != 0 { return Err(HasBackingFile); }
    var clusterBits := Field32(file, 20);
    if clusterBits < 9 || clusterBits > 21 { return Err(BadClusterBits(clusterBits)); }
    var virtualSize := Word(file, 24);
    var cryptMethod := Field32(file, 32);
    if cryptMethod != 0 { return Err(Encrypted(cryptMethod)); }
    var l1Size, l1Offset := Field32(file, 36), Word(file, 40);
    if version >= 3 && |file| >= 104 {
      var incompatible := Word(file, 72);
      WordBound(file, 72);
      IncompatibleMask(incompatible);
      if And(incompatible, W - 2) != 0 {
        return Err(UnsupportedIncompatibleFeatures(And(incompatible, W - 2)));
      }
    }
    // An addition that overflows is past the end of any file.
    if l1Offset + l1Size * 8 > |file| { return Err(OffsetOutOfRange(l1Offset)); }
    var l1 := ReadTable(file, l1Offset, l1Size);
    WordBound(file, 24);
    forall i | 0 <= i < |l1| ensures l1[i] < W {
      WordBound(file, l1Offset + 8 * i);
    }
    var reader := new Reader(Image(file, clusterBits, Pow2(clusterBits), virtualSize, l1));
    r := Ok(reader);
  }

  lemma WordBound(file: seq<byte>, offset: nat)
    requires offset + 8 <= |file|
    ensures Word(file, offset) < W
  {
    BigEndianBound(file[offset..offset + 8]);
    Pow2Word();
  }

  lemma IncompatibleMask(x: nat)
    requires x < W
    ensures And(x, W - 2) == x / 2 * 2
  {
    hide And, Pow2;
    Pow2Word();
    AndMask(x, 64, 1);
    assert Low(x, 64) == x;
    LowBit(x);
  }

  lemma LowBit(x: nat)
    ensures Pow2(1) == 2 && Low(x, 1) == x % 2
  {
  }

  /** The masks of the code read an entry as the format means it. */
  method ReadEntry(entry: nat) returns (r: Result<Location>)
    ensures r == LocationOf(entry)
  {
    hide And;
    MaskIsCompressed(entry);
    MaskIsHostOffset(entry);
    AndOne(entry);
    if And(entry, L2_COMPRESSED) != 0 {
      return Err(CompressedCluster);
    }
    var hostOffset := And(entry, OFFSET_MASK);
    if And(entry, L2_ZERO) != 0 || hostOffset == 0 {
      return Ok(Zero);
    }
    return Ok(Data(hostOffset));
  }

  /** The walk, table by table. */
  lemma LookupParts(img: Image, c: nat)
    ensures var perTable := img.clusterSize / 8;
            perTable > 0 ==>
              Lookup(img, c) ==
                if c / perTable >= |img.l1| then Ok(Zero)
                else
                  var table := HostOffset(img.l1[c / perTable]);
                  if table == 0 then Ok(Zero)
                  else if table + img.clusterSize > |img.file| then Err(OffsetOutOfRange(table))
                  else LocationOf(Table(img.file, table, perTable)[c % perTable])
  {
    hide HostOffset, LocationOf, Word;
  }

  class Reader {
    const img: Image
    var l2CacheOffset: nat
    var l2Cache: seq<nat>

    /** The cache is empty or holds the table at its recorded offset. */
    ghost predicate Valid()
      reads this
    {
      && ValidImage(img)
      && (l2Cache == [] || CacheHolds(img, l2CacheOffset, l2Cache))
    }

    constructor (img: Image)
      requires ValidImage(img)
      ensures Valid() && this.img == img
    {
      this.img := img;
      l2CacheOffset, l2Cache := 0, [];
    }

    /** Loads a second-level table unless it is the one in the cache. */
    method LoadTable(l2Offset: nat) returns (ok: bool)
      requires Valid()
      modifies this`l2CacheOffset, this`l2Cache
      ensures Valid() && (ok <==> l2Offset + img.clusterSize <= |img.file|)
      ensures ok ==> l2Cache == Table(img.file, l2Offset, img.clusterSize / 8)
    {
      hide Pow2, Table;
      EntriesFit(img);
      if l2Offset != l2CacheOffset || l2Cache == [] {
        if l2Offset + img.clusterSize > |img.file| {
          return false;
        }
        l2Cache := ReadTable(img.file, l2Offset, img.clusterSize / 8);
        l2CacheOffset := l2Offset;
      }
      return true;
    }

    /** The walk through the cache returns what the walk through the file would. */
    method ResolveCluster(c: nat) returns (r: Result<Location>)
      requires Valid()
      modifies this`l2CacheOffset, this`l2Cache
      ensures Valid()
      ensures r == Lookup(img, c)
    {
      hide Pow2, And, HostOffset, Valid, Word, LocationOf;
      LookupParts(img, c);
      assert ValidImage(img) by { ImageValid(); }
      EntriesFit(img);
      var l2Entries := img.clusterSize / 8;
      var l1Index, l2Index := c / l2Entries, c % l2Entries;
      if l1Index >= |img.l1| {
        return Ok(Zero);
      }
      MaskIsHostOffset(img.l1[l1Index]);
      var l2Offset := And(img.l1[l1Index], OFFSET_MASK);
      if l2Offset == 0 {
        return Ok(Zero);
      }
      var ok := LoadTable(l2Offset);
      if !ok {
        return Err(OffsetOutOfRange(l2Offset));
      }
      r := ReadEntry(l2Cache[l2Index]);
    }

    lemma ImageValid()
      requires Valid()
      ensures ValidImage(img)
    {
    }

    /** Fills `buf` with a guest cluster; a failure leaves it alone. */
    method ReadClusterInto(c: nat, buf: array<byte>) returns (r: Result<()>)
      requires Valid() && buf.Length == img.clusterSize
      modifies this`l2CacheOffset, this`l2Cache, buf
      ensures Valid()
      ensures Cluster(img, c).Ok? ==> r == Ok(()) && buf[..] == Cluster(img, c).value
      ensures Cluster(img, c).Err? ==> r == Err(Cluster(img, c).error) && buf[..] == old(buf[..])
    {
      var loc := ResolveCluster(c);
      match loc
      case Err(e) => r := Err(e);
      case Ok(Zero) =>
        Fill(buf, seq(img.clusterSize, _ => 0));
        r := Ok(());
      case Ok(Data(hostOffset)) =>
        if hostOffset + img.clusterSize > |img.file| {
          return Err(OffsetOutOfRange(hostOffset));
        }
        Fill(buf, img.file[hostOffset..hostOffset + img.clusterSize]);
        r := Ok(());
    }

    /** Streams the disk to a sparse raw file. The cluster count wraps as the code's 64-bit addition does, and
        seeking to a position or setting a length that no file can have fails. The conversion succeeds exactly
        when a file can have the disk's size and every cluster below it is readable, and then the file is the
        disk, byte for byte. */
    method ConvertToRaw() returns (r: Result<RawFile>)
      requires Valid()
      modifies this`l2CacheOffset, this`l2Cache
      ensures Valid()
      ensures r.Ok? <==> img.virtualSize < FILE_LIMIT && forall c :: 0 <= c && StartOf(img, c) < img.virtualSize ==> Readable(img, c)
      ensures r.Ok? ==> IsDisk(img, r.value) && Sparse(img, r.value)
      ensures r.Err? ==>
        || (r.error == Io && img.virtualSize >= FILE_LIMIT)
        || exists c :: 0 <= c && StartOf(img, c) < img.virtualSize && FirstFailure(img, c, r.error)
    {
      hide Converted, ClusterAt, Lookup, ClusterCount, WriteAt, StartOf, IsDisk, Sparse;
      var numClusters := ClusterCount(img);
      var written: map<nat, byte> := map[];
      ConvertedNone(img);
      var c := 0;
      while c < numClusters
        invariant c <= numClusters
        invariant Valid()
        invariant forall k :: 0 <= k < c ==> Readable(img, k)
        invariant Converted(img, c, written)
      {
        StartInside(img, c);
        var guestPos := StartOf(img, c);
        var writeLen := if img.clusterSize < img.virtualSize - guestPos then img.clusterSize else img.virtualSize - guestPos;
        var loc := ResolveCluster(c);
        match loc {
          case Err(e) =>
            assert FirstFailure(img, c, e);
            return Err(e);
          case Ok(Zero) =>
            ConvertedHole(img, c, written);
          case Ok(Data(hostOffset)) =>
            if hostOffset + img.clusterSize > |img.file| {
              assert FirstFailure(img, c, OffsetOutOfRange(hostOffset));
              return Err(OffsetOutOfRange(hostOffset));
            }
            var buf := img.file[hostOffset..hostOffset + img.clusterSize];
            if guestPos >= FILE_LIMIT {
              return Err(Io);
            }
            ConvertedData(img, c, written, guestPos, buf[..writeLen]);
            written := WriteAt(written, guestPos, buf[..writeLen]);
        }
        c := c + 1;
      }
      if img.virtualSize >= FILE_LIMIT {
        return Err(Io);
      }
      WholeDisk(img, written);
      r := Ok(RawFile(written, img.virtualSize));
    }

    /** Reads `dst.Length` bytes from a guest offset, which wraps as the code's
        64-bit addition does. */
    method ReadAt(offset: nat, dst: array<byte>) returns (r: Result<()>)
      requires Valid() && offset < W
      modifies this`l2CacheOffset, this`l2Cache, dst
      ensures Valid()
      ensures r.Ok? <==> forall k :: 0 <= k < dst.Length ==> Readable(img, ClusterAt(img, Position(offset, k)))
      ensures r.Ok? ==> forall k :: 0 <= k < dst.Length ==> dst[k] == GuestByte(img, Position(offset, k))
      ensures r.Err? ==> exists k :: 0 <= k < dst.Length && Cluster(img, ClusterAt(img, Position(offset, k))) == Err(r.error)
    {
      hide ClusterAt, WithinCluster, Position, Cluster, And, Pow2;
      var written, at := 0, offset;
      PositionStart(offset);
      var buf := new byte[img.clusterSize];
      while written < dst.Length
        invariant written <= dst.Length && at == Position(offset, written)
        invariant Valid()
        invariant forall k :: 0 <= k < written ==> Readable(img, ClusterAt(img, Position(offset, k)))
        invariant forall k :: 0 <= k < written ==> dst[k] == GuestByte(img, Position(offset, k))
      {
        ShiftsAgree(img, at);
        var guestCluster, inCluster := at / Pow2(img.clusterBits), And(at, img.clusterSize - 1);
        var res := ReadClusterInto(guestCluster, buf);
        if res.Err? {
          return res;
        }
        var take := if img.clusterSize - inCluster < dst.Length - written then img.clusterSize - inCluster else dst.Length - written;
        Splice(dst, written, buf, inCluster, take);
        forall k | written <= k < written + take
          ensures Readable(img, ClusterAt(img, Position(offset, k))) && dst[k] == GuestByte(img, Position(offset, k))
        {
          Chunk(img, offset, written, k);
        }
        PositionStep(offset, written, take);
        written := written + take;
        at := Position(at, take);
      }
      r := Ok(());
    }

    /** A conversion that succeeds and then a read of any range inside the disk: the read succeeds and gives the
        same bytes as the file. */
    method ConvertThenRead(offset: nat, dst: array<byte>) returns (raw: Result<RawFile>, r: Result<()>)
      requires Valid() && offset < W
      modifies this`l2CacheOffset, this`l2Cache, dst
      ensures Valid()
      ensures raw.Ok? && offset + dst.Length <= img.virtualSize ==>
        r.Ok? && forall k :: 0 <= k < dst.Length ==> dst[k] == raw.value.At(offset + k)
    {
      hide IsDisk, Sparse, ClusterAt, GuestByte, Position, FirstFailure, StartOf, Readable;
      raw := ConvertToRaw();
      r := ReadAt(offset, dst);
      if raw.Ok? && offset + dst.Length <= img.virtualSize {
        forall k | 0 <= k < dst.Length
          ensures Readable(img, ClusterAt(img, Position(offset, k))) && raw.value.At(offset + k) == GuestByte(img, Position(offset, k))
        {
          SizeBound();
          ReadsAgreeWithConversion(img, raw.value, offset, k);
        }
      }
    }

    lemma SizeBound()
      requires Valid()
      ensures img.virtualSize < W
    {
    }
  }

  lemma PositionStart(offset: nat)
    requires offset < W
    ensures Position(offset, 0) == offset
  {
  }

  lemma PositionStep(offset: nat, n: nat, k: nat)
    ensures Position(Position(offset, n), k) == Position(offset, n + k)
  {
  }

  /** The code's shift and mask are division and remainder by the cluster size. */
  lemma ShiftsAgree(img: Image, pos: nat)
    requires ValidImage(img)
    ensures pos / Pow2(img.clusterBits) == ClusterAt(img, pos)
    ensures And(pos, img.clusterSize - 1) == WithinCluster(img, pos)
  {
    hide And;
    AndMask(pos, img.clusterBits, 0);
  }

  /** A run of positions up to the end of its cluster does not wrap. */
  lemma Chunk(img: Image, offset: nat, n: nat, k: nat)
    requires ValidImage(img)
    requires n <= k < n + img.clusterSize - WithinCluster(img, Position(offset, n))
    ensures ClusterAt(img, Position(offset, k)) == ClusterAt(img, Position(offset, n))
    ensures WithinCluster(img, Position(offset, k)) == WithinCluster(img, Position(offset, n)) + k - n
  {
    hide Pow2, Position, ClusterAt, WithinCluster;
    var at, j := Position(offset, n), k - n;
    PositionStep(offset, n, j);
    var rows := WordRows(img);
    ClusterRange(img, ClusterAt(img, at), at);
    InsideRow(img.clusterSize, rows, ClusterAt(img, at), WithinCluster(img, at), j);
    PositionInside(at, j);
    ClusterRange(img, ClusterAt(img, at), at + j);
  }

  /** Clusters tile the 64-bit range. */
  lemma WordRows(img: Image) returns (rows: nat)
    requires ValidImage(img)
    ensures img.clusterSize * rows == W
  {
    rows := Pow2(64 - img.clusterBits);
    Pow2Add(img.clusterBits, 64 - img.clusterBits);
    Pow2Word();
  }

  lemma InsideRow(size: nat, rows: nat, c: nat, w: nat, j: nat)
    requires w + j < size && size * c + w < size * rows
    ensures size * c + w + j < size * rows
  {
    if c >= rows { MulMonotone(size, rows, c); } else { MulMonotone(size, c + 1, rows); }
  }

  lemma PositionInside(at: nat, j: nat)
    requires at + j < W
    ensures Position(at, j) == at + j
  {
  }

  method Fill(buf: array<byte>, src: seq<byte>)
    requires buf.Length == |src|
    modifies buf
    ensures buf[..] == src
  {
    for i := 0 to buf.Length
      invariant forall k :: 0 <= k < i ==> buf[k] == src[k]
    {
      buf[i] := src[i];
    }
  }

  method Splice(dst: array<byte>, at: nat, src: array<byte>, start: nat, n: nat)
    requires dst != src && at + n <= dst.Length && start + n <= src.Length
    modifies dst
    ensures forall k :: at <= k < at + n ==> dst[k] == src[start + k - at]
    ensures forall k :: 0 <= k < dst.Length && !(at <= k < at + n) ==> dst[k] == old(dst[k])
  {
    for i := 0 to n
      invariant forall k :: at <= k < at + i ==> dst[k] == src[start + k - at]
      invariant forall k :: 0 <= k < dst.Length && !(at <= k < at + i) ==> dst[k] == old(dst[k])
    {
      dst[at + i] := src[start + i];
    }
  }

  // ----- Conversion on values -----

  /** How many clusters the conversion walks. */
  function ClusterCount(img: Image): nat {
    (img.virtualSize + img.clusterSize - 1) % W / img.clusterSize
  }

  /** The guest position at which cluster `c` starts. */
  function StartOf(img: Image, c: nat): nat {
    c * img.clusterSize
  }

  /** The guest position `k` bytes on, in 64-bit arithmetic. */
  function Position(offset: nat, k: nat): (pos: nat)
    ensures pos < W
  {
    (offset + k) % W
  }

  predicate Allocated(img: Image, c: nat) {
    Lookup(img, c).Ok? && Lookup(img, c).value.Data?
  }

  /** What has been written is the data of the allocated ones among the first `n`
      clusters, cut at the virtual size; holes are not written. */
  ghost predicate Converted(img: Image, n: nat, written: map<nat, byte>) {
    && (forall pos: nat :: pos in written <==>
          pos < img.virtualSize && ClusterAt(img, pos) < n && Allocated(img, ClusterAt(img, pos)))
    && (forall pos: nat :: pos in written ==>
          Readable(img, ClusterAt(img, pos)) && written[pos] == GuestByte(img, pos))
  }

  ghost predicate FirstFailure(img: Image, c: nat, e: Error) {
    Cluster(img, c) == Err(e) && forall k :: 0 <= k < c ==> Readable(img, k)
  }

  /** Position `pos` lies in cluster `c` exactly when it is in the cluster's range. */
  lemma ClusterRange(img: Image, c: nat, pos: nat)
    ensures StartOf(img, c) <= pos < StartOf(img, c) + img.clusterSize <==> ClusterAt(img, pos) == c
    ensures ClusterAt(img, pos) == c ==> WithinCluster(img, pos) == pos - StartOf(img, c)
    ensures ClusterAt(img, pos) < c <==> pos < StartOf(img, c)
  {
    var size, q := img.clusterSize, ClusterAt(img, pos);
    assert pos == size * q + WithinCluster(img, pos);
    if c * size <= pos < c * size + size {
      DivModUnique(pos, size, c, pos - c * size);
    }
    if q < c { MulMonotone(size, q + 1, c); } else { MulMonotone(size, c, q); }
  }

  lemma StartInside(img: Image, c: nat)
    requires c < ClusterCount(img)
    ensures StartOf(img, c) < img.virtualSize
  {
    var total := (img.virtualSize + img.clusterSize - 1) % W;
    assert (c + 1) * img.clusterSize <= total by {
      MulMonotone(img.clusterSize, c + 1, total / img.clusterSize);
    }
  }

  lemma ConvertedNone(img: Image)
    ensures Converted(img, 0, map[])
  {
  }

  lemma ConvertedHole(img: Image, c: nat, written: map<nat, byte>)
    requires Converted(img, c, written) && !Allocated(img, c)
    ensures Converted(img, c + 1, written)
  {
  }

  lemma ConvertedData(img: Image, c: nat, written: map<nat, byte>, start: nat, data: seq<byte>)
    requires Converted(img, c, written) && Allocated(img, c) && Readable(img, c)
    requires start == StartOf(img, c) && data <= Cluster(img, c).value
    requires |data| == if img.clusterSize < img.virtualSize - start then img.clusterSize else img.virtualSize - start
    ensures Converted(img, c + 1, WriteAt(written, start, data))
  {
    forall pos: nat
      ensures var w := WriteAt(written, start, data);
              && (pos in w <==> pos < img.virtualSize && ClusterAt(img, pos) < c + 1 && Allocated(img, ClusterAt(img, pos)))
              && (pos in w ==> Readable(img, ClusterAt(img, pos)) && w[pos] == GuestByte(img, pos))
    {
      ConvertedAt(img, c, written, start, data, pos);
    }
  }

  lemma ConvertedAt(img: Image, c: nat, written: map<nat, byte>, start: nat, data: seq<byte>, pos: nat)
    requires Converted(img, c, written) && Allocated(img, c) && Readable(img, c)
    requires start == StartOf(img, c) && data <= Cluster(img, c).value
    requires |data| == if img.clusterSize < img.virtualSize - start then img.clusterSize else img.virtualSize - start
    ensures var w := WriteAt(written, start, data);
            && (pos in w <==> pos < img.virtualSize && ClusterAt(img, pos) < c + 1 && Allocated(img, ClusterAt(img, pos)))
            && (pos in w ==> Readable(img, ClusterAt(img, pos)) && w[pos] == GuestByte(img, pos))
  {
    ClusterRange(img, c, pos);
    WriteEffect(written, start, data);
    hide Cluster, Lookup, ClusterAt, WithinCluster, WriteAt;
    assert pos in written ==> ClusterAt(img, pos) < c;
  }

  ghost predicate CacheHolds(img: Image, offset: nat, table: seq<nat>) {
    offset + img.clusterSize <= |img.file| && table == Table(img.file, offset, img.clusterSize / 8)
  }

  lemma EntriesFit(img: Image)
    requires ValidImage(img)
    ensures img.clusterSize >= 512 && img.clusterSize / 8 >= 64
  {
    Pow2Word();
    Pow2Monotone(9, img.clusterBits);
  }

  // ----- What conversion and reading promise -----

  /** The virtual size leaves room for the code's rounding up. */
  predicate NoWrap(img: Image) {
    img.virtualSize + img.clusterSize - 1 < W
  }

  /** Without wrap-around the conversion walks exactly the clusters that hold guest positions. */
  lemma ClusterCountExact(img: Image, c: nat)
    requires NoWrap(img)
    ensures c < ClusterCount(img) <==> StartOf(img, c) < img.virtualSize
  {
    var size, n := img.clusterSize, ClusterCount(img);
    var total := img.virtualSize + size - 1;
    assert n == total / size && total == size * n + total % size;
    if c < n {
      StartInside(img, c);
    } else {
      MulMonotone(size, n, c);
    }
  }

  /** `raw` has the size and the bytes of the guest's disk. */
  ghost predicate IsDisk(img: Image, raw: RawFile) {
    raw.len == img.virtualSize &&
    forall pos: nat :: pos < img.virtualSize ==> Readable(img, ClusterAt(img, pos)) && raw.At(pos) == GuestByte(img, pos)
  }

  /** Only allocated clusters have been written. */
  ghost predicate Sparse(img: Image, raw: RawFile) {
    forall pos: nat :: pos in raw.written <==> pos < img.virtualSize && Allocated(img, ClusterAt(img, pos))
  }

  /** A conversion of readable clusters is the guest's disk, byte for byte. */
  lemma ConvertedIsDisk(img: Image, written: map<nat, byte>, pos: nat)
    requires NoWrap(img) && (forall c :: 0 <= c < ClusterCount(img) ==> Readable(img, c))
    requires Converted(img, ClusterCount(img), written) && pos < img.virtualSize
    ensures ClusterAt(img, pos) < ClusterCount(img) && Readable(img, ClusterAt(img, pos))
    ensures RawFile(written, img.virtualSize).At(pos) == GuestByte(img, pos)
  {
    var c := ClusterAt(img, pos);
    ClusterRange(img, c, pos);
    ClusterCountExact(img, c);
    hide ClusterAt, WithinCluster, ClusterCount, Lookup;
    assert Readable(img, c);
  }

  lemma WholeDisk(img: Image, written: map<nat, byte>)
    requires ValidImage(img) && img.virtualSize < FILE_LIMIT
    requires (forall c :: 0 <= c < ClusterCount(img) ==> Readable(img, c)) && Converted(img, ClusterCount(img), written)
    ensures IsDisk(img, RawFile(written, img.virtualSize)) && Sparse(img, RawFile(written, img.virtualSize))
    ensures forall c :: 0 <= c && StartOf(img, c) < img.virtualSize ==> Readable(img, c)
  {
    ClusterBound(img);
    hide ValidImage, Readable, ClusterAt, ClusterCount, GuestByte, StartOf, Allocated;
    forall pos: nat | pos < img.virtualSize
      ensures ClusterAt(img, pos) < ClusterCount(img) && Readable(img, ClusterAt(img, pos))
      ensures RawFile(written, img.virtualSize).At(pos) == GuestByte(img, pos)
    {
      ConvertedIsDisk(img, written, pos);
    }
    forall c | 0 <= c && StartOf(img, c) < img.virtualSize ensures Readable(img, c) {
      ClusterCountExact(img, c);
    }
  }

  lemma ClusterBound(img: Image)
    requires ValidImage(img)
    ensures img.clusterSize <= 0x20_0000
  {
    Pow2Monotone(img.clusterBits, 21);
    assert Pow2(21) == 0x20_0000 by { Pow2Word(); Pow2Small(); }
  }

  lemma Pow2Small()
    ensures Pow2(16) == 0x1_0000 ==> Pow2(21) == 0x20_0000
  {
    Pow2Quad(16);
    Pow2Quad(18);
    assert Pow2(21) == 2 * Pow2(20);
  }

  /** The sum behind the cluster count wraps only for sizes that no output file can have, and then no cluster
      is walked: a wrapped count never yields a file. */
  lemma WrapRefused(img: Image)
    requires ValidImage(img) && img.virtualSize < W && !NoWrap(img)
    ensures ClusterCount(img) == 0 && img.virtualSize >= FILE_LIMIT
  {
    ClusterBound(img);
    hide ValidImage;
    var total := img.virtualSize + img.clusterSize - 1 - W;
    assert (img.virtualSize + img.clusterSize - 1) % W == total < img.clusterSize;
    DivModUnique(total, img.clusterSize, 0, total);
  }

  /** A read inside the disk returns the same bytes as the converted file. */
  lemma ReadsAgreeWithConversion(img: Image, raw: RawFile, offset: nat, k: nat)
    requires IsDisk(img, raw) && offset + k < img.virtualSize < W
    ensures Readable(img, ClusterAt(img, Position(offset, k)))
    ensures raw.At(offset + k) == GuestByte(img, Position(offset, k))
  {
    hide ClusterAt, Cluster, Position, GuestByte;
    PositionInside(offset, k);
  }
}
