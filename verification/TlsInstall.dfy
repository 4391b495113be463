/** Storage reserved by `load_library` for a module with thread-local storage loaded at run
    time, and its installation in every thread by `install_new_tls`. */
module TlsInstall {
  import opened Bits
  import opened Bytes
  import opened TlsLayout

  // ----- Geometry of one reservation -----

  /** The record of a loaded object and the reservation behind it: `base` is the allocation,
      `bufOfs` and `structSize` are the offset of the name and the size of `struct dso`, and
      `cnt` counts the modules including this one. */
  datatype Reservation = Reservation(base: nat, bufOfs: nat, structSize: nat, nameLen: nat, threads: nat, cnt: nat,
                                     image: nat, size: nat, alignBits: nat)

  ghost predicate ValidReservation(r: Reservation) {
    && r.bufOfs <= r.structSize && r.alignBits < 64 && r.cnt >= 1 && r.threads >= 1
    && r.base + AllocSize(r) < W
  }

  function PerThread(r: Reservation): nat {
    r.size + Pow2(r.alignBits) + 8 * (r.cnt + 2)
  }

  function AllocSize(r: Reservation): nat {
    r.structSize + r.nameLen + 1 + r.threads * PerThread(r)
  }

  /** The byte after the name's terminator, rounded up to a word. */
  function NewDtv(r: Reservation): int {
    var x := r.base + r.bufOfs + r.nameLen + 8;
    x - x % 8
  }

  function RowSize(r: Reservation): nat {
    8 * (r.cnt + 1)
  }

  function Row(r: Reservation, j: nat): int {
    NewDtv(r) + j * RowSize(r)
  }

  function NewTls(r: Reservation): int {
    NewDtv(r) + r.threads * RowSize(r)
  }

  function Stride(r: Reservation): nat {
    r.size + Pow2(r.alignBits)
  }

  function Slot(r: Reservation, j: nat): int {
    NewTls(r) + j * Stride(r)
  }

  /** Where thread `j`'s block is placed in its slot. */
  function Block(r: Reservation, j: nat): int {
    Slot(r, j) + And((r.image - Slot(r, j)) % W, Pow2(r.alignBits) - 1)
  }

  /** The word mask of the code is rounding down. */
  lemma WordMask(x: nat)
    requires x < W
    ensures And(x, W - 8) == x - x % 8
  {
    hide And, Pow2;
    Pow2Word();
    AndMask(x, 64, 3);
    LowThree(x);
    LowWord(x);
  }

  lemma LowThree(x: nat)
    ensures Pow2(3) == 8 && Low(x, 3) == x % 8
  {
  }

  /** Rows and slots follow one another inside the allocation, after the name. */
  lemma Reserved(r: Reservation)
    requires ValidReservation(r)
    ensures r.base + r.bufOfs + r.nameLen < NewDtv(r)
    ensures NewTls(r) + r.threads * Stride(r) <= r.base + AllocSize(r)
  {
  }

  lemma RowInPlace(r: Reservation, j: nat)
    requires ValidReservation(r) && j < r.threads
    ensures NewDtv(r) <= Row(r, j) && Row(r, j) + RowSize(r) <= NewTls(r)
  {
    hide NewDtv;
    MulMonotone(RowSize(r), j + 1, r.threads);
  }

  lemma SlotInPlace(r: Reservation, j: nat)
    requires ValidReservation(r) && j < r.threads
    ensures NewTls(r) <= Slot(r, j) && Slot(r, j) + Stride(r) <= r.base + AllocSize(r)
  {
    hide Pow2;
    Reserved(r);
    hide NewTls, AllocSize, Stride;
    MulMonotone(Stride(r), j + 1, r.threads);
  }

  lemma BlockInSlot(r: Reservation, j: nat)
    requires ValidReservation(r)
    ensures Slot(r, j) <= Block(r, j) && Block(r, j) + r.size <= Slot(r, j) + Stride(r)
    ensures Mod(Block(r, j), Pow2(r.alignBits)) == Mod(r.image, Pow2(r.alignBits))
  {
    hide Pow2, And, Mod, Slot, AllocSize;
    var m, mem := Pow2(r.alignBits), Slot(r, j);
    LowMask((r.image - mem) % W, r.alignBits);
    WrapKeepsRemainder(r.image - mem, r.alignBits);
    var q := Split(r.image - mem, m);
    MulNegate(m, q);
    SameRemainder(Block(r, j), r.image, m, -q);
  }

  /** Thread `j`'s row and block lie in their places, and the block is congruent to the image. */
  lemma InPlace(r: Reservation, j: nat)
    requires ValidReservation(r) && j < r.threads
    ensures r.base + r.bufOfs + r.nameLen < Row(r, j) && Row(r, j) + RowSize(r) <= NewTls(r)
    ensures NewTls(r) <= Slot(r, j) <= Block(r, j) && Block(r, j) + r.size <= Slot(r, j) + Stride(r) <= r.base + AllocSize(r)
    ensures Mod(Block(r, j), Pow2(r.alignBits)) == Mod(r.image, Pow2(r.alignBits))
  {
    hide Pow2, Mod, Slot, Block, NewTls, NewDtv, AllocSize, Row, Stride;
    Reserved(r);
    RowInPlace(r, j);
    SlotInPlace(r, j);
    BlockInSlot(r, j);
  }

  /** Different threads' rows and slots do not overlap. */
  lemma ThreadsApart(r: Reservation, i: nat, j: nat)
    requires ValidReservation(r) && i < j < r.threads
    ensures Row(r, i) + RowSize(r) <= Row(r, j)
    ensures Slot(r, i) + Stride(r) <= Slot(r, j)
  {
    hide Pow2;
    MulMonotone(RowSize(r), i + 1, j);
    MulMonotone(Stride(r), i + 1, j);
  }

  // ----- Memory -----

  /** The bytes of a word; their order does not matter here. */
  function WordBytes(x: nat): (data: seq<byte>)
    ensures |data| == 8
  {
    ToBigEndian(x, 8)
  }

  /** The `n` bytes from `pos`, unmapped ones reading as zero. */
  function Contents(mem: map<nat, byte>, pos: nat, n: nat): (data: seq<byte>)
    ensures |data| == n
  {
    seq(n, i requires 0 <= i < n => if pos + i in mem then mem[pos + i] else 0)
  }

  function WordAt(mem: map<nat, byte>, pos: nat): nat {
    BigEndian(Contents(mem, pos, 8))
  }

  lemma WordHeld(mem: map<nat, byte>, pos: nat, x: nat)
    requires Holds(mem, pos, WordBytes(x)) && x < W
    ensures WordAt(mem, pos) == x
  {
    hide Pow2, BigEndian, ToBigEndian;
    Pow2Word();
    BigEndianRoundTrip(x, 8);
    assert Contents(mem, pos, 8) == WordBytes(x);
  }

  /** A word inside bytes copied from elsewhere is the word there. */
  lemma WordCopied(mem: map<nat, byte>, pos: nat, from: map<nat, byte>, source: nat, n: nat, k: nat)
    requires Holds(mem, pos, Contents(from, source, n)) && k + 8 <= n
    ensures WordAt(mem, pos + k) == WordAt(from, source + k)
  {
    var data := Contents(from, source, n);
    var word, copied := Contents(from, source + k, 8), Contents(mem, pos + k, 8);
    forall i | 0 <= i < 8 ensures copied[i] == word[i] {
      assert data[k + i] == word[i];
      assert pos + k + i in mem && mem[pos + k + i] == data[k + i];
    }
    assert copied == word;
  }

  lemma WriteSplit(mem: map<nat, byte>, pos: nat, a: seq<byte>, b: seq<byte>)
    ensures WriteAt(mem, pos, a + b) == WriteAt(WriteAt(mem, pos, a), pos + |a|, b)
  {
    hide WriteAt;
    WriteEffect(mem, pos, a + b);
    WriteEffect(mem, pos, a);
    WriteEffect(WriteAt(mem, pos, a), pos + |a|, b);
    assert WriteAt(mem, pos, a + b).Keys == WriteAt(WriteAt(mem, pos, a), pos + |a|, b).Keys;
  }

  // ----- What installation writes -----

  /** An object in load order; `tlsId` is 0 for one without thread-local storage. */
  datatype Object = Object(tlsId: nat, r: Reservation, image: seq<byte>)

  ghost predicate Separate(r: Reservation, r': Reservation) {
    r.base + AllocSize(r) <= r'.base || r'.base + AllocSize(r') <= r.base
  }

  /** An installation: the object list, the count of modules that threads have so far and the new one, the
      number of threads, and the position of the object whose reservation provides the new vectors. */
  datatype Plan = Plan(list: seq<Object>, oldCnt: nat, cnt: nat, threads: nat, provider: nat)

  predicate IsNew(p: Plan, a: nat) {
    a < |p.list| && p.list[a].tlsId > p.oldCnt
  }

  /** The identifier belongs to a new object. */
  ghost predicate Assigned(p: Plan, id: nat) {
    exists a: nat :: IsNew(p, a) && p.list[a].tlsId == id
  }

  /** What `load_library` leaves: identifiers count the modules at the time and increase along the list without
      gaps, the newest is the provider's, and every new object has a reservation of its own, made for as many modules
      and for the threads there are. */
  ghost predicate ValidPlan(p: Plan) {
    && p.oldCnt < p.cnt && IsNew(p, p.provider) && p.list[p.provider].tlsId == p.cnt
    && (forall a: nat :: IsNew(p, a) ==>
          && p.list[a].tlsId <= p.cnt && ValidReservation(p.list[a].r) && p.list[a].r.cnt == p.list[a].tlsId
          && |p.list[a].image| <= p.list[a].r.size && p.threads <= p.list[a].r.threads)
    && (forall a: nat, b: nat :: a < b && IsNew(p, a) && IsNew(p, b) ==>
          p.list[a].tlsId < p.list[b].tlsId && Separate(p.list[a].r, p.list[b].r))
    && (forall id: nat :: p.oldCnt < id <= p.cnt ==> Assigned(p, id))
  }

  /** A plan in which nothing is new yet. */
  ghost predicate NothingNew(p: Plan) {
    p.oldCnt == p.cnt && forall a: nat :: !IsNew(p, a)
  }

  /** `load_library` extends a plan: the object gets the next identifier and a reservation for it. */
  lemma LoadExtendsPlan(p: Plan, o: Object)
    requires ValidPlan(p) || NothingNew(p)
    requires o.tlsId == o.r.cnt == p.cnt + 1 && ValidReservation(o.r) && |o.image| <= o.r.size && p.threads <= o.r.threads
    requires forall a: nat :: IsNew(p, a) ==> Separate(p.list[a].r, o.r)
    ensures ValidPlan(Plan(p.list + [o], p.oldCnt, p.cnt + 1, p.threads, |p.list|))
  {
    hide Separate, ValidReservation;
    var q := Plan(p.list + [o], p.oldCnt, p.cnt + 1, p.threads, |p.list|);
    assert forall a: nat :: IsNew(q, a) <==> a == |p.list| || IsNew(p, a);
    forall id: nat | q.oldCnt < id <= q.cnt ensures Assigned(q, id) {
      if id == q.cnt {
        assert IsNew(q, |p.list|);
      } else {
        assert Assigned(p, id);
        var a: nat :| IsNew(p, a) && p.list[a].tlsId == id;
        assert IsNew(q, a) && q.list[a] == p.list[a];
      }
    }
  }

  function Provider(p: Plan): Reservation
    requires p.provider < |p.list|
  {
    p.list[p.provider].r
  }

  /** The places written: the first word of a thread's new vector, the entries it keeps, an entry for a new
      module, and the thread's block of that module. */
  datatype Cell = Head(j: nat) | Kept(j: nat) | Entry(a: nat, j: nat) | Data(a: nat, j: nat)

  predicate IsCell(p: Plan, c: Cell) {
    c.j < p.threads && (c.Entry? || c.Data? ==> IsNew(p, c.a))
  }

  function Start(p: Plan, c: Cell): int
    requires p.provider < |p.list| && IsCell(p, c)
  {
    match c
    case Head(j) => Row(Provider(p), j)
    case Kept(j) => Row(Provider(p), j) + 8
    case Entry(a, j) => Row(Provider(p), j) + 8 * p.list[a].tlsId
    case Data(a, j) => Block(p.list[a].r, j)
  }

  function Length(p: Plan, c: Cell): nat
    requires IsCell(p, c)
  {
    match c
    case Head(_) => 8
    case Kept(_) => 8 * p.oldCnt
    case Entry(_, _) => 8
    case Data(a, _) => |p.list[a].image|
  }

  /** A cell lies in its thread's row of the provider's reservation, or in its thread's slot of its own. */
  lemma CellInPlace(p: Plan, c: Cell)
    requires ValidPlan(p) && IsCell(p, c)
    ensures !c.Data? ==> Row(Provider(p), c.j) <= Start(p, c) && Start(p, c) + Length(p, c) <= Row(Provider(p), c.j) + RowSize(Provider(p))
    ensures c.Data? ==> Slot(p.list[c.a].r, c.j) <= Start(p, c) && Start(p, c) + Length(p, c) <= Slot(p.list[c.a].r, c.j) + Stride(p.list[c.a].r)
  {
    hide Row, Slot, Block, AllocSize, Stride, Pow2;
    if c.Data? { BlockInSlot(p.list[c.a].r, c.j); }
  }

  /** The reservation a cell lies in. */
  function Home(p: Plan, c: Cell): Reservation
    requires p.provider < |p.list| && IsCell(p, c)
  {
    if c.Data? then p.list[c.a].r else Provider(p)
  }

  lemma CellReserved(p: Plan, c: Cell)
    requires ValidPlan(p) && IsCell(p, c)
    ensures 0 <= NewDtv(Home(p, c)) <= Start(p, c) && Start(p, c) + Length(p, c) <= Home(p, c).base + AllocSize(Home(p, c))
    ensures c.Data? ==> NewTls(Home(p, c)) <= Start(p, c)
    ensures !c.Data? ==> Start(p, c) + Length(p, c) <= NewTls(Home(p, c))
  {
    CellInPlace(p, c);
    hide Row, Slot, Block, Stride, Pow2, RowSize, Start, Length, Separate;
    var r := Home(p, c);
    Reserved(r);
    TlsAfterRows(r);
    hide AllocSize, NewDtv, NewTls;
    RowInPlace(r, c.j);
    SlotInPlace(r, c.j);
  }

  lemma TlsAfterRows(r: Reservation)
    requires ValidReservation(r)
    ensures 0 <= NewDtv(r) <= NewTls(r) <= r.base + AllocSize(r)
  {
    hide Pow2;
    Reserved(r);
    MulMonotone(RowSize(r), 0, r.threads);
    MulMonotone(Stride(r), 0, r.threads);
  }

  predicate Disjoint(p: Plan, c: Cell, d: Cell)
    requires p.provider < |p.list| && IsCell(p, c) && IsCell(p, d)
  {
    Start(p, c) + Length(p, c) <= Start(p, d) || Start(p, d) + Length(p, d) <= Start(p, c)
  }

  lemma SameRow(p: Plan, c: Cell, d: Cell)
    requires ValidPlan(p) && IsCell(p, c) && IsCell(p, d) && c != d && !c.Data? && !d.Data? && c.j == d.j
    ensures Disjoint(p, c, d)
  {
    hide Row, ValidReservation, Separate;
    if c.Entry? && d.Entry? {
      assert c.a < d.a || d.a < c.a;
    }
  }

  lemma DifferentRows(p: Plan, c: Cell, d: Cell)
    requires ValidPlan(p) && IsCell(p, c) && IsCell(p, d) && !c.Data? && !d.Data? && c.j < d.j
    ensures Disjoint(p, c, d)
  {
    CellInPlace(p, c);
    CellInPlace(p, d);
    hide Row, Start, Length, Slot, Separate;
    ThreadsApart(Provider(p), c.j, d.j);
  }

  lemma DifferentBlocks(p: Plan, c: Cell, d: Cell)
    requires ValidPlan(p) && IsCell(p, c) && IsCell(p, d) && c.Data? && d.Data? && c.a == d.a && c.j < d.j
    ensures Disjoint(p, c, d)
  {
    CellInPlace(p, c);
    CellInPlace(p, d);
    hide Row, Start, Length, Slot, Separate, Stride, RowSize;
    ThreadsApart(p.list[c.a].r, c.j, d.j);
  }

  lemma DifferentHomes(p: Plan, a: nat, b: nat)
    requires ValidPlan(p) && IsNew(p, a) && IsNew(p, b) && a != b
    ensures Separate(p.list[a].r, p.list[b].r)
  {
    hide AllocSize, ValidReservation;
    assert a < b || b < a;
  }

  /** Different cells do not overlap. */
  lemma CellsApart(p: Plan, c: Cell, d: Cell)
    requires ValidPlan(p) && IsCell(p, c) && IsCell(p, d) && c != d
    ensures Disjoint(p, c, d)
  {
    CellReserved(p, c);
    CellReserved(p, d);
    hide ValidPlan, Start, Length, AllocSize, NewDtv, NewTls;
    if !c.Data? && !d.Data? {
      if c.j == d.j { SameRow(p, c, d); } else if c.j < d.j { DifferentRows(p, c, d); } else { DifferentRows(p, d, c); }
    } else if c.Data? && d.Data? && c.a == d.a {
      if c.j < d.j { DifferentBlocks(p, c, d); } else { DifferentBlocks(p, d, c); }
    } else {
      assert IsNew(p, p.provider) by { ProviderNew(p); }
      var a := if c.Data? then c.a else p.provider;
      var b := if d.Data? then d.a else p.provider;
      if a != b { DifferentHomes(p, a, b); }
    }
  }

  lemma ProviderNew(p: Plan)
    requires ValidPlan(p)
    ensures IsNew(p, p.provider) && p.list[p.provider].tlsId == p.cnt && p.oldCnt < p.cnt
  {
  }

  // ----- Memory during installation -----

  /** What a cell is to hold, `vectors` being the threads' present vectors in `before`. */
  function Wanted(p: Plan, before: map<nat, byte>, vectors: seq<nat>, c: Cell): (data: seq<byte>)
    requires p.provider < |p.list| && IsCell(p, c) && |vectors| == p.threads
    ensures |data| == Length(p, c)
  {
    match c
    case Head(_) => WordBytes(p.cnt)
    case Kept(j) => Contents(before, vectors[j] + 8, 8 * p.oldCnt)
    case Entry(a, j) => if Block(p.list[a].r, j) >= 0 then WordBytes(Block(p.list[a].r, j)) else WordBytes(0)
    case Data(a, _) => p.list[a].image
  }

  ghost predicate CellHolds(p: Plan, before: map<nat, byte>, vectors: seq<nat>, mem: map<nat, byte>, c: Cell)
    requires p.provider < |p.list| && IsCell(p, c) && |vectors| == p.threads
  {
    Start(p, c) >= 0 && Holds(mem, Start(p, c), Wanted(p, before, vectors, c))
  }

  /** Address `x` is in some cell. */
  ghost predicate InCell(p: Plan, x: nat)
    requires p.provider < |p.list|
  {
    exists c :: IsCell(p, c) && Start(p, c) <= x < Start(p, c) + Length(p, c)
  }

  ghost predicate SameAt(before: map<nat, byte>, mem: map<nat, byte>, x: nat) {
    (x in mem <==> x in before) && (x in mem ==> mem[x] == before[x])
  }

  /** The cells in `done` hold what they are to hold, and nothing outside cells has changed. */
  ghost predicate Progress(p: Plan, before: map<nat, byte>, vectors: seq<nat>, mem: map<nat, byte>, done: set<Cell>) {
    && p.provider < |p.list| && |vectors| == p.threads
    && (forall c :: c in done ==> IsCell(p, c) && CellHolds(p, before, vectors, mem, c))
    && (forall x: nat :: !InCell(p, x) ==> SameAt(before, mem, x))
  }

  /** Writing anything into a cell keeps the other cells and everything outside cells. */
  lemma WriteOther(p: Plan, before: map<nat, byte>, vectors: seq<nat>, mem: map<nat, byte>, done: set<Cell>, c: Cell, data: seq<byte>)
    requires ValidPlan(p) && Progress(p, before, vectors, mem, done) && IsCell(p, c) && |data| == Length(p, c)
    ensures Start(p, c) >= 0 && Progress(p, before, vectors, WriteAt(mem, Start(p, c), data), done - {c})
  {
    CellReserved(p, c);
    hide ValidPlan, Start, Length, Wanted, WriteAt, NewDtv, AllocSize, NewTls, Holds;
    var after := WriteAt(mem, Start(p, c), data);
    WriteEffect(mem, Start(p, c), data);
    forall d | d in done - {c} ensures CellHolds(p, before, vectors, after, d) {
      assert CellHolds(p, before, vectors, mem, d);
      CellsApart(p, c, d);
      WriteKeeps(mem, Start(p, d), Wanted(p, before, vectors, d), Start(p, c), data);
    }
    forall x: nat | !InCell(p, x) ensures SameAt(before, after, x) {
      assert SameAt(before, mem, x);
    }
  }

  /** Writing what a cell is to hold completes it. */
  lemma WriteCell(p: Plan, before: map<nat, byte>, vectors: seq<nat>, mem: map<nat, byte>, done: set<Cell>, c: Cell)
    requires ValidPlan(p) && Progress(p, before, vectors, mem, done) && IsCell(p, c)
    ensures Start(p, c) >= 0
    ensures Progress(p, before, vectors, WriteAt(mem, Start(p, c), Wanted(p, before, vectors, c)), done + {c})
  {
    var data := Wanted(p, before, vectors, c);
    WriteOther(p, before, vectors, mem, done, c, data);
    WriteHolds(mem, Start(p, c), data);
    hide ValidPlan, Start, Length, Wanted, WriteAt, Holds, SameAt, InCell;
    assert done + {c} == (done - {c}) + {c};
  }

  /** The present vectors lie outside every new reservation. */
  ghost predicate VectorsApart(p: Plan, vectors: seq<nat>) {
    |vectors| == p.threads &&
    forall j, a: nat :: 0 <= j < |vectors| && IsNew(p, a) ==>
      || vectors[j] + 8 * (p.oldCnt + 1) <= p.list[a].r.base
      || p.list[a].r.base + AllocSize(p.list[a].r) <= vectors[j]
  }

  lemma VectorOutside(p: Plan, vectors: seq<nat>, j: nat, x: nat)
    requires ValidPlan(p) && VectorsApart(p, vectors) && j < |vectors| && vectors[j] <= x < vectors[j] + 8 * (p.oldCnt + 1)
    ensures p.provider < |p.list| && !InCell(p, x)
  {
    ProviderNew(p);
    hide ValidPlan, Start, Length, AllocSize, NewDtv, NewTls;
    forall c | IsCell(p, c) ensures !(Start(p, c) <= x < Start(p, c) + Length(p, c)) {
      CellReserved(p, c);
      HomeBase(p, c);
      var a := if c.Data? then c.a else p.provider;
      assert IsNew(p, a) && Home(p, c) == p.list[a].r;
    }
  }

  lemma HomeBase(p: Plan, c: Cell)
    requires ValidPlan(p) && IsCell(p, c)
    ensures Home(p, c).base <= NewDtv(Home(p, c))
  {
    hide AllocSize, Separate;
    Reserved(Home(p, c));
  }

  lemma VectorKept(p: Plan, before: map<nat, byte>, vectors: seq<nat>, mem: map<nat, byte>, done: set<Cell>, j: nat)
    requires ValidPlan(p) && VectorsApart(p, vectors) && Progress(p, before, vectors, mem, done) && j < p.threads
    ensures Contents(mem, vectors[j], 8 * (p.oldCnt + 1)) == Contents(before, vectors[j], 8 * (p.oldCnt + 1))
  {
    hide ValidPlan, VectorsApart, InCell;
    assert |vectors| == p.threads;
    var n := 8 * (p.oldCnt + 1);
    forall i | 0 <= i < n ensures Contents(mem, vectors[j], n)[i] == Contents(before, vectors[j], n)[i] {
      VectorOutside(p, vectors, j, vectors[j] + i);
      assert SameAt(before, mem, vectors[j] + i);
    }
  }

  // ----- Installation -----

  /** A thread and the address of its vector. */
  class Pthread {
    var dtv: nat
    constructor (dtv: nat)
      ensures this.dtv == dtv
    {
      this.dtv := dtv;
    }
  }

  class Heap {
    var bytes: map<nat, byte>
    constructor (bytes: map<nat, byte>)
      ensures this.bytes == bytes
    {
      this.bytes := bytes;
    }
  }

  /** The copy of a vector, whose first word is then replaced. */
  lemma CopyOne(p: Plan, before: map<nat, byte>, vectors: seq<nat>, mem: map<nat, byte>, done: set<Cell>, j: nat)
    requires ValidPlan(p) && VectorsApart(p, vectors) && Progress(p, before, vectors, mem, done) && j < p.threads
    ensures var row := Row(Provider(p), j);
            row >= 0 &&
            Progress(p, before, vectors,
                     WriteAt(WriteAt(mem, row, Contents(mem, vectors[j], 8 * (p.oldCnt + 1))), row, WordBytes(p.cnt)),
                     done + {Head(j), Kept(j)})
  {
    hide ValidPlan, VectorsApart, Progress, WriteAt, Contents, Row;
    assert p.provider < |p.list| && |vectors| == p.threads by { ProgressBasics(p, before, vectors, mem, done); }
    var row, v := Row(Provider(p), j), vectors[j];
    VectorKept(p, before, vectors, mem, done, j);
    ContentsSplit(before, v, p.oldCnt);
    var first, kept := Contents(before, v, 8), Contents(before, v + 8, 8 * p.oldCnt);
    assert Start(p, Head(j)) == row && Start(p, Kept(j)) == row + 8;
    WriteOther(p, before, vectors, mem, done, Head(j), first);
    WriteSplit(mem, row, first, kept);
    var done1 := done - {Head(j)};
    WriteCell(p, before, vectors, WriteAt(mem, row, first), done1, Kept(j));
    WriteCell(p, before, vectors, WriteAt(mem, row, first + kept), done1 + {Kept(j)}, Head(j));
    assert done1 + {Kept(j)} + {Head(j)} == done + {Head(j), Kept(j)};
  }

  lemma ProgressBasics(p: Plan, before: map<nat, byte>, vectors: seq<nat>, mem: map<nat, byte>, done: set<Cell>)
    requires Progress(p, before, vectors, mem, done)
    ensures p.provider < |p.list| && |vectors| == p.threads
  {
  }

  lemma ContentsSplit(mem: map<nat, byte>, v: nat, n: nat)
    ensures Contents(mem, v, 8 * (n + 1)) == Contents(mem, v, 8) + Contents(mem, v + 8, 8 * n)
  {
  }

  /** The first loop: enlarged copies of every thread's vector, in the provider's reservation. */
  method CopyVectors(heap: Heap, threads: seq<Pthread>, p: Plan, ghost vectors: seq<nat>) returns (ghost done: set<Cell>)
    requires ValidPlan(p) && VectorsApart(p, vectors) && |threads| == p.threads == |vectors|
    requires forall j :: 0 <= j < |threads| ==> threads[j].dtv == vectors[j]
    modifies heap
    ensures Progress(p, old(heap.bytes), vectors, heap.bytes, done)
    ensures forall j: nat :: j < p.threads ==> Head(j) in done && Kept(j) in done
  {
    hide ValidPlan, VectorsApart, Progress, WriteAt, Row, Contents, WordBytes, IsNew;
    ProviderNew(p);
    assert p.provider < |p.list| by { NewInList(p, p.provider); }
    ghost var before := heap.bytes;
    NoProgress(p, before, vectors);
    done := {};
    for i := 0 to |threads|
      invariant Progress(p, before, vectors, heap.bytes, done)
      invariant forall j: nat :: j < i ==> Head(j) in done && Kept(j) in done
    {
      CopyOne(p, before, vectors, heap.bytes, done, i);
      var row := Row(Provider(p), i);
      var copy := WriteAt(heap.bytes, row, Contents(heap.bytes, threads[i].dtv, 8 * (p.oldCnt + 1)));
      heap.bytes := WriteAt(copy, row, WordBytes(p.cnt));
      done := done + {Head(i), Kept(i)};
    }
  }

  lemma NewInList(p: Plan, a: nat)
    requires IsNew(p, a)
    ensures a < |p.list|
  {
  }

  lemma NoProgress(p: Plan, before: map<nat, byte>, vectors: seq<nat>)
    requires ValidPlan(p) && |vectors| == p.threads
    ensures Progress(p, before, vectors, before, {})
  {
    hide ValidReservation, Separate, Start, Length;
  }

  /** One block and the entry for it. */
  lemma InstallOne(p: Plan, before: map<nat, byte>, vectors: seq<nat>, mem: map<nat, byte>, done: set<Cell>, a: nat, j: nat)
    requires ValidPlan(p) && Progress(p, before, vectors, mem, done) && IsNew(p, a) && j < p.threads
    ensures var block, entry := Block(p.list[a].r, j), Row(Provider(p), j) + 8 * p.list[a].tlsId;
            && 0 <= block < W && entry >= 0
            && Progress(p, before, vectors, WriteAt(WriteAt(mem, block, p.list[a].image), entry, WordBytes(block)),
                        done + {Data(a, j), Entry(a, j)})
  {
    hide ValidPlan, Progress, WriteAt, Row, Block, WordBytes;
    assert p.provider < |p.list| && |vectors| == p.threads by { ProgressBasics(p, before, vectors, mem, done); }
    var block, entry := Block(p.list[a].r, j), Row(Provider(p), j) + 8 * p.list[a].tlsId;
    BlockBound(p, a, j);
    assert Start(p, Data(a, j)) == block && Start(p, Entry(a, j)) == entry;
    WriteCell(p, before, vectors, mem, done, Data(a, j));
    WriteCell(p, before, vectors, WriteAt(mem, block, p.list[a].image), done + {Data(a, j)}, Entry(a, j));
    assert done + {Data(a, j)} + {Entry(a, j)} == done + {Data(a, j), Entry(a, j)};
  }

  lemma BlockBound(p: Plan, a: nat, j: nat)
    requires ValidPlan(p) && IsNew(p, a) && j < p.threads
    ensures 0 <= Block(p.list[a].r, j) < W
  {
    CellReserved(p, Data(a, j));
    assert Home(p, Data(a, j)) == p.list[a].r && Start(p, Data(a, j)) == Block(p.list[a].r, j);
    hide Block, Separate, NewDtv, AllocSize, Start;
  }

  /** Nothing newer follows the provider. */
  lemma ProviderLast(p: Plan, a: nat)
    requires ValidPlan(p) && IsNew(p, a)
    ensures a <= p.provider && (a == p.provider <==> p.list[a].tlsId == p.cnt)
  {
    hide ValidReservation, Separate;
    assert a < p.provider || p.provider < a || a == p.provider;
  }

  /** The second loop: the new modules' blocks, written and entered in the vectors not installed yet. */
  method FillVectors(heap: Heap, p: Plan, ghost before: map<nat, byte>, ghost vectors: seq<nat>, ghost done0: set<Cell>)
    returns (ghost done: set<Cell>)
    requires ValidPlan(p) && Progress(p, before, vectors, heap.bytes, done0)
    modifies heap
    ensures Progress(p, before, vectors, heap.bytes, done) && done0 <= done
    ensures forall a: nat, j: nat :: IsNew(p, a) && j < p.threads ==> Data(a, j) in done && Entry(a, j) in done
  {
    hide ValidPlan, Progress, WriteAt, Row, Block, WordBytes;
    ProviderNew(p);
    done := done0;
    var a := 0;
    while true
      invariant a <= p.provider && done0 <= done && Progress(p, before, vectors, heap.bytes, done)
      invariant forall b: nat, j: nat :: b < a && IsNew(p, b) && j < p.threads ==> Data(b, j) in done && Entry(b, j) in done
      decreases p.provider - a
    {
      if p.list[a].tlsId > p.oldCnt {
        ProviderLast(p, a);
        for j := 0 to p.threads
          invariant done0 <= done && Progress(p, before, vectors, heap.bytes, done)
          invariant forall b: nat, k: nat :: b < a && IsNew(p, b) && k < p.threads ==> Data(b, k) in done && Entry(b, k) in done
          invariant forall k: nat :: k < j ==> Data(a, k) in done && Entry(a, k) in done
        {
          InstallOne(p, before, vectors, heap.bytes, done, a, j);
          var block := Block(p.list[a].r, j);
          heap.bytes := WriteAt(heap.bytes, block, p.list[a].image);
          heap.bytes := WriteAt(heap.bytes, Row(Provider(p), j) + 8 * p.list[a].tlsId, WordBytes(block));
          done := done + {Data(a, j), Entry(a, j)};
        }
        if p.list[a].tlsId == p.cnt {
          forall b: nat, j: nat | IsNew(p, b) && j < p.threads ensures Data(b, j) in done && Entry(b, j) in done {
            ProviderLast(p, b);
          }
          return;
        }
      }
      a := a + 1;
    }
  }

  /** A block from its first byte to its last: the image, and zeros behind it. */
  function Whole(o: Object): (data: seq<byte>)
    ensures |data| == o.r.size
  {
    seq(o.r.size, i requires 0 <= i < o.r.size => if i < |o.image| then o.image[i] else 0)
  }

  /** The vector at `row` has an entry for the new object at `a`, for a block that is as it should be. */
  ghost predicate HasModule(p: Plan, mem: map<nat, byte>, row: nat, j: nat, a: nat)
    requires IsNew(p, a)
  {
    var o := p.list[a];
    Block(o.r, j) >= 0 && WordAt(mem, row + 8 * o.tlsId) == Block(o.r, j) && Holds(mem, Block(o.r, j), Whole(o))
  }

  ghost predicate HasIdentifier(p: Plan, mem: map<nat, byte>, row: nat, j: nat, id: nat) {
    exists a: nat :: IsNew(p, a) && p.list[a].tlsId == id && HasModule(p, mem, row, j, a)
  }

  /** Thread `j`'s vector at `row` has the count, the entries of the vector at `vector` in `before`, and an entry
      for every new object and so for every new identifier. */
  ghost predicate Installed(p: Plan, before: map<nat, byte>, vector: nat, mem: map<nat, byte>, row: nat, j: nat) {
    && WordAt(mem, row) == p.cnt
    && (forall k :: 1 <= k <= p.oldCnt ==> WordAt(mem, row + 8 * k) == WordAt(before, vector + 8 * k))
    && (forall a: nat :: IsNew(p, a) ==> HasModule(p, mem, row, j, a))
    && (forall id: nat :: p.oldCnt < id <= p.cnt ==> HasIdentifier(p, mem, row, j, id))
  }

  // ----- What lies behind the image -----

  /** `load_library` allocates zeroed memory, and nothing has been written behind the names. */
  ghost predicate Zeroed(p: Plan, mem: map<nat, byte>) {
    forall a: nat, x: nat :: IsNew(p, a) && NewDtv(p.list[a].r) <= x < p.list[a].r.base + AllocSize(p.list[a].r) ==>
      x in mem && mem[x] == 0
  }

  /** The plan with every image filled up to its block, which shows that no cell reaches behind an image. */
  function Padded(p: Plan): Plan {
    p.(list := seq(|p.list|, i requires 0 <= i < |p.list| => p.list[i].(image := Whole(p.list[i]))))
  }

  lemma PaddedNew(p: Plan, a: nat)
    ensures IsNew(Padded(p), a) <==> IsNew(p, a)
    ensures a < |p.list| ==>
      && Padded(p).list[a].r == p.list[a].r && Padded(p).list[a].tlsId == p.list[a].tlsId
      && |Padded(p).list[a].image| == p.list[a].r.size
  {
  }

  lemma PaddedValid(p: Plan)
    requires ValidPlan(p)
    ensures ValidPlan(Padded(p))
  {
    hide Separate, ValidReservation, Padded;
    var q := Padded(p);
    assert q.oldCnt == p.oldCnt && q.cnt == p.cnt && q.provider == p.provider && q.threads == p.threads by { PaddedSame(p); }
    forall a: nat
      ensures IsNew(q, a) <==> IsNew(p, a)
      ensures a < |p.list| ==> a < |q.list| && q.list[a].r == p.list[a].r && q.list[a].tlsId == p.list[a].tlsId
      ensures a < |p.list| ==> a < |q.list| && |q.list[a].image| == p.list[a].r.size
    {
      PaddedNew(p, a);
      PaddedSame(p);
    }
    forall id: nat | q.oldCnt < id <= q.cnt ensures Assigned(q, id) {
      assert Assigned(p, id);
      var a: nat :| IsNew(p, a) && p.list[a].tlsId == id;
      assert IsNew(q, a);
    }
  }

  lemma PaddedSame(p: Plan)
    ensures var q := Padded(p);
            q.oldCnt == p.oldCnt && q.cnt == p.cnt && q.provider == p.provider && q.threads == p.threads && |q.list| == |p.list|
  {
  }

  lemma PaddedCell(p: Plan, c: Cell)
    requires ValidPlan(p) && IsCell(p, c)
    ensures var q := Padded(p);
            && q.provider < |q.list| && IsCell(q, c) && Start(q, c) == Start(p, c) && Length(p, c) <= Length(q, c)
            && (c.Data? ==> Length(q, c) == p.list[c.a].r.size)
  {
    hide Row, Block, Padded, ValidReservation, Separate;
    PaddedSame(p);
    PaddedNew(p, p.provider);
    if c.Data? || c.Entry? { PaddedNew(p, c.a); }
  }

  lemma RestFree(p: Plan, a: nat, j: nat, x: nat)
    requires ValidPlan(p) && IsNew(p, a) && j < p.threads
    requires Block(p.list[a].r, j) + |p.list[a].image| <= x < Block(p.list[a].r, j) + p.list[a].r.size
    ensures p.provider < |p.list| && !InCell(p, x)
  {
    hide ValidPlan, Length, Block, Padded, IsNew, Row;
    ProviderNew(p);
    NewInList(p, p.provider);
    NewInList(p, a);
    PaddedValid(p);
    var q, block := Padded(p), Data(a, j);
    PaddedCell(p, block);
    forall c | IsCell(p, c) ensures !(Start(p, c) <= x < Start(p, c) + Length(p, c)) {
      PaddedCell(p, c);
      if c == block { BlockLength(p, a, j); } else { CellsApart(q, block, c); }
    }
  }

  lemma BlockLength(p: Plan, a: nat, j: nat)
    requires IsNew(p, a) && j < p.threads
    ensures Length(p, Data(a, j)) == |p.list[a].image|
  {
  }

  lemma RestReserved(p: Plan, a: nat, j: nat)
    requires ValidPlan(p) && IsNew(p, a) && j < p.threads
    ensures NewDtv(p.list[a].r) <= Block(p.list[a].r, j)
    ensures Block(p.list[a].r, j) + p.list[a].r.size <= p.list[a].r.base + AllocSize(p.list[a].r)
  {
    hide AllocSize, NewDtv, NewTls, Block, Slot, Stride, Row, Separate;
    InPlace(p.list[a].r, j);
    TlsAfterRows(p.list[a].r);
  }

  lemma BlockWhole(p: Plan, before: map<nat, byte>, vectors: seq<nat>, mem: map<nat, byte>, done: set<Cell>, a: nat, j: nat)
    requires ValidPlan(p) && Progress(p, before, vectors, mem, done) && Zeroed(p, before) && IsNew(p, a) && j < p.threads
    requires Block(p.list[a].r, j) >= 0 && Holds(mem, Block(p.list[a].r, j), p.list[a].image)
    ensures Holds(mem, Block(p.list[a].r, j), Whole(p.list[a]))
  {
    hide ValidPlan, Block, InCell, AllocSize, NewDtv, CellHolds;
    var block, o := Block(p.list[a].r, j), p.list[a];
    RestReserved(p, a, j);
    forall x: nat | block <= x < block + o.r.size ensures x in mem && mem[x] == Whole(o)[x - block] {
      if x >= block + |o.image| {
        RestFree(p, a, j, x);
        assert SameAt(before, mem, x);
      }
    }
  }

  lemma DoneHolds(p: Plan, before: map<nat, byte>, vectors: seq<nat>, mem: map<nat, byte>, done: set<Cell>, c: Cell)
    requires Progress(p, before, vectors, mem, done) && c in done
    ensures p.provider < |p.list| && |vectors| == p.threads && IsCell(p, c) && CellHolds(p, before, vectors, mem, c)
  {
    hide CellHolds, InCell;
  }

  lemma KeptInstalled(p: Plan, before: map<nat, byte>, vectors: seq<nat>, mem: map<nat, byte>, done: set<Cell>, j: nat, k: nat)
    requires Progress(p, before, vectors, mem, done) && Kept(j) in done && j < p.threads && 1 <= k <= p.oldCnt
    ensures p.provider < |p.list| && |vectors| == p.threads && Row(Provider(p), j) >= -8
    ensures WordAt(mem, Row(Provider(p), j) + 8 * k) == WordAt(before, vectors[j] + 8 * k)
  {
    hide Row, Holds, WordAt, Contents, WordBytes, Progress, Block;
    DoneHolds(p, before, vectors, mem, done, Kept(j));
    WordCopied(mem, Row(Provider(p), j) + 8, before, vectors[j] + 8, 8 * p.oldCnt, 8 * (k - 1));
  }

  lemma EntryInstalled(p: Plan, before: map<nat, byte>, vectors: seq<nat>, mem: map<nat, byte>, done: set<Cell>, a: nat, j: nat)
    requires ValidPlan(p) && Progress(p, before, vectors, mem, done) && j < p.threads && IsNew(p, a)
    requires Data(a, j) in done && Entry(a, j) in done && Zeroed(p, before)
    ensures p.provider < |p.list| && Row(Provider(p), j) >= 0 ==> HasModule(p, mem, Row(Provider(p), j), j, a)
  {
    hide Row, Holds, WordAt, WordBytes, Progress, Block, ValidPlan, Zeroed, Whole;
    DoneHolds(p, before, vectors, mem, done, Data(a, j));
    DoneHolds(p, before, vectors, mem, done, Entry(a, j));
    BlockBound(p, a, j);
    WordHeld(mem, Row(Provider(p), j) + 8 * p.list[a].tlsId, Block(p.list[a].r, j));
    BlockWhole(p, before, vectors, mem, done, a, j);
  }

  lemma HeadInstalled(p: Plan, before: map<nat, byte>, vectors: seq<nat>, mem: map<nat, byte>, done: set<Cell>, j: nat)
    requires Progress(p, before, vectors, mem, done) && Head(j) in done && j < p.threads && p.cnt < W
    ensures p.provider < |p.list| && |vectors| == p.threads && Row(Provider(p), j) >= 0 && WordAt(mem, Row(Provider(p), j)) == p.cnt
  {
    hide Row, Holds, WordAt, WordBytes, Progress, Block;
    DoneHolds(p, before, vectors, mem, done, Head(j));
    WordHeld(mem, Row(Provider(p), j), p.cnt);
  }

  lemma ThreadInstalled(p: Plan, before: map<nat, byte>, vectors: seq<nat>, mem: map<nat, byte>, done: set<Cell>, j: nat)
    requires ValidPlan(p) && Progress(p, before, vectors, mem, done) && j < p.threads && p.cnt < W
    requires Head(j) in done && Kept(j) in done && Zeroed(p, before)
    requires forall a: nat :: IsNew(p, a) ==> Data(a, j) in done && Entry(a, j) in done
    ensures p.provider < |p.list| && |vectors| == p.threads && Row(Provider(p), j) >= 0
    ensures Installed(p, before, vectors[j], mem, Row(Provider(p), j), j)
  {
    hide Row, Block, Holds, WordAt, ValidPlan, Progress, Zeroed, HasModule;
    HeadInstalled(p, before, vectors, mem, done, j);
    var row := Row(Provider(p), j);
    forall k | 1 <= k <= p.oldCnt ensures WordAt(mem, row + 8 * k) == WordAt(before, vectors[j] + 8 * k) {
      KeptInstalled(p, before, vectors, mem, done, j, k);
    }
    forall a: nat | IsNew(p, a) ensures HasModule(p, mem, row, j, a) {
      EntryInstalled(p, before, vectors, mem, done, a, j);
    }
    forall id: nat | p.oldCnt < id <= p.cnt ensures HasIdentifier(p, mem, row, j, id) {
      var a := NewObject(p, id);
    }
  }

  lemma NewObject(p: Plan, id: nat) returns (a: nat)
    requires ValidPlan(p) && p.oldCnt < id <= p.cnt
    ensures IsNew(p, a) && p.list[a].tlsId == id
  {
    hide ValidReservation, Separate;
    assert Assigned(p, id);
    a :| IsNew(p, a) && p.list[a].tlsId == id;
  }

  /** Outside the new reservations nothing has changed; inside, nothing before the vectors' place. */
  ghost predicate OnlyReserved(p: Plan, before: map<nat, byte>, mem: map<nat, byte>) {
    forall x: nat :: (forall a: nat :: IsNew(p, a) ==> !(NewDtv(p.list[a].r) <= x < p.list[a].r.base + AllocSize(p.list[a].r))) ==>
      SameAt(before, mem, x)
  }

  lemma ProgressReserved(p: Plan, before: map<nat, byte>, vectors: seq<nat>, mem: map<nat, byte>, done: set<Cell>)
    requires ValidPlan(p) && Progress(p, before, vectors, mem, done)
    ensures OnlyReserved(p, before, mem)
  {
    ProviderNew(p);
    hide ValidPlan, Start, Length, AllocSize, NewDtv, NewTls, SameAt, CellHolds;
    forall x: nat | forall a: nat :: IsNew(p, a) ==> !(NewDtv(p.list[a].r) <= x < p.list[a].r.base + AllocSize(p.list[a].r))
      ensures SameAt(before, mem, x)
    {
      forall c | IsCell(p, c) ensures !(Start(p, c) <= x < Start(p, c) + Length(p, c)) {
        CellReserved(p, c);
        var a := if c.Data? then c.a else p.provider;
        assert IsNew(p, a) && Home(p, c) == p.list[a].r;
      }
      assert !InCell(p, x);
    }
  }

  function Vectors(threads: seq<Pthread>): (vectors: seq<nat>)
    reads threads
    ensures |vectors| == |threads| && forall j :: 0 <= j < |threads| ==> vectors[j] == threads[j].dtv
  {
    seq(|threads|, j requires 0 <= j < |threads| reads threads => threads[j].dtv)
  }

  /** `install_new_tls`. Everything happens in one memory: the enlarged vectors are written into the reservation
      of the newest module, next to its blocks, and the blocks of the other new modules into theirs. At the end
      every thread's vector is its row, with the old entries and one for every new module, whose block is the
      module's image and zeros behind it, and no byte outside the reservations has changed. */
  method InstallNewTls(heap: Heap, threads: seq<Pthread>, list: seq<Object>, cnt: nat, tail: nat, ghost oldCnt: nat)
    requires threads != [] && (forall i, j :: 0 <= i < j < |threads| ==> threads[i] != threads[j])
    requires ValidPlan(Plan(list, oldCnt, cnt, |threads|, tail)) && VectorsApart(Plan(list, oldCnt, cnt, |threads|, tail), Vectors(threads))
    requires WordAt(heap.bytes, threads[0].dtv) == oldCnt && cnt < W
    requires Zeroed(Plan(list, oldCnt, cnt, |threads|, tail), heap.bytes)
    modifies heap, threads
    ensures tail < |list|
    ensures forall j: nat :: j < |threads| ==>
      && threads[j].dtv == Row(list[tail].r, j)
      && Installed(Plan(list, oldCnt, cnt, |threads|, tail), old(heap.bytes), old(Vectors(threads))[j], heap.bytes, threads[j].dtv, j)
    ensures OnlyReserved(Plan(list, oldCnt, cnt, |threads|, tail), old(heap.bytes), heap.bytes)
  {
    var p := Plan(list, WordAt(heap.bytes, threads[0].dtv), cnt, |threads|, tail);
    ghost var before, vectors := heap.bytes, Vectors(threads);
    ProviderNew(p);
    hide ValidPlan, VectorsApart, Progress, Row, Installed, OnlyReserved, WordAt, IsNew, Zeroed;
    ghost var done := CopyVectors(heap, threads, p, vectors);
    done := FillVectors(heap, p, before, vectors, done);
    ProgressReserved(p, before, vectors, heap.bytes, done);
    forall j: nat | j < |threads|
      ensures Row(Provider(p), j) >= 0 && Installed(p, before, vectors[j], heap.bytes, Row(Provider(p), j), j)
    {
      ThreadInstalled(p, before, vectors, heap.bytes, done, j);
    }
    SetVectors(threads, Provider(p));
  }

  method SetVectors(threads: seq<Pthread>, provider: Reservation)
    requires forall i, j :: 0 <= i < j < |threads| ==> threads[i] != threads[j]
    requires forall j: nat :: j < |threads| ==> Row(provider, j) >= 0
    modifies threads
    ensures forall j: nat :: j < |threads| ==> threads[j].dtv == Row(provider, j)
  {
    hide Row;
    for j := 0 to |threads|
      invariant forall i: nat :: i < j ==> threads[i].dtv == Row(provider, i)
    {
      threads[j].dtv := Row(provider, j);
    }
  }
}
