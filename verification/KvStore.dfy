/** The key/value store of dp/core/io.c on the block device of dp/core/dummy_dev.c: writes are batched,
    a flush allocates and writes the whole batch, its completion updates the index.

    `Conservation` says that blocks are never lost or shared, over any run; `PutGet` that a completed
    one-write batch is read back and disturbs nothing else; `PutFindExactly` which keys it disturbs when keys
    begin others; `PlacementExactly` and `ImageFillsExactly` say when a flush writes where and what it
    reserved. */
module KvStore {
  import opened Common
  import opened Words
  import opened FreeLists
  import opened BlkIndex
  import Crc32

  const METAMAGIC: nat := 0xd006

  /** A batched write: the new index entry and the value to go with it. */
  datatype Write = Write(ent: IndexEnt, val: seq<byte>)

  /** The free list, the index, the device, and the batch buffer. */
  datatype Store = Store(free: seq<Extent>, buckets: seq<seq<IndexEnt>>, dev: seq<byte>,
                         batch: seq<Write>, inFlight: bool)

  // ---------------------------------------------------------------------------------------------
  // What a write puts on the device
  // ---------------------------------------------------------------------------------------------

  function Zeros(n: nat): (z: seq<byte>)
    ensures |z| == n
  {
    seq(n, _ => 0)
  }

  /** A C string that leaves room for its terminator in the key field. */
  predicate IsKey(key: Key) {
    |key| < MAX_KEY_LEN && 0 !in key
  }

  /** The low `k` bytes of a number, least significant first. */
  function LittleEndian(n: nat, k: nat): (b: seq<byte>)
    ensures |b| == k
    decreases k
  {
    if k == 0 then [] else [n % 256] + LittleEndian(n / 256, k - 1)
  }

  /** The first META_SZ bytes of a struct index_ent. */
  function Meta(e: IndexEnt): (b: seq<byte>)
    requires |e.key| <= MAX_KEY_LEN
    ensures |b| == META_SZ
  {
    LittleEndian(METAMAGIC, 2) + (e.key + Zeros(MAX_KEY_LEN - |e.key|)) + LittleEndian(e.lba % TWO32, 4)
    + LittleEndian(e.valLen, 8) + LittleEndian(e.crc, 4) + LittleEndian(e.version, 2)
  }

  /** The length of the third scatter-gather entry. */
  function NumZeros(len: nat): (n: nat)
    ensures n <= LBA_SIZE
  {
    if len <= DATA_SZ then DATA_SZ - len else LBA_SIZE - (len - DATA_SZ) % LBA_SIZE
  }

  /** The three scatter-gather entries of a write. */
  function Image(w: Write): seq<byte>
    requires |w.ent.key| <= MAX_KEY_LEN
  {
    Meta(w.ent) + w.val + Zeros(NumZeros(|w.val|))
  }

  /** The lengths whose entries fill whole blocks. */
  predicate FillsBlocks(len: nat) {
    len <= DATA_SZ || (len - DATA_SZ) % LBA_SIZE != 0
  }

  /** The entries of a write fill exactly its blocks, unless the part of the value behind the first
      block is a whole number of blocks: then they run over by one. */
  lemma ImageFillsExactly(w: Write)
    requires |w.ent.key| <= MAX_KEY_LEN
    ensures |Image(w)| == NumBlks(|w.val|) * LBA_SIZE <==> FillsBlocks(|w.val|)
    ensures !FillsBlocks(|w.val|) ==> |Image(w)| == (NumBlks(|w.val|) + 1) * LBA_SIZE
  {
    var len := |w.val|;
    if len > DATA_SZ {
      var d := len - DATA_SZ;
      var q, r := d / LBA_SIZE, d % LBA_SIZE;
      assert d == LBA_SIZE * q + r;
      if r == 0 {
        assert (d + LBA_SIZE - 1) / LBA_SIZE == q;
      } else {
        assert (d + LBA_SIZE - 1) / LBA_SIZE == q + 1;
      }
    }
  }

  // ---------------------------------------------------------------------------------------------
  // The batch
  // ---------------------------------------------------------------------------------------------

  function BatchBlks(batch: seq<Write>): nat {
    if batch == [] then 0 else batch[0].ent.Blks() + BatchBlks(batch[1..])
  }

  /** The loop of bsys_io_write_flush that hands out block numbers. */
  function Assign(batch: seq<Write>, lba: int): seq<Write> {
    if batch == [] then []
    else [Write(batch[0].ent.(lba := lba), batch[0].val)] + Assign(batch[1..], lba + batch[0].ent.Blks())
  }

  /** The value of startlba after that loop, which the device write is given: the loop advances it past
      every entry but the last. */
  function WriteStart(batch: seq<Write>, lba: int): int
    requires batch != []
    decreases |batch|
  {
    if |batch| == 1 then lba else WriteStart(batch[1..], lba + batch[0].ent.Blks())
  }

  /** The device write starts where the batch was allocated exactly when the batch is a single write. */
  lemma {:induction false} PlacementExactly(batch: seq<Write>, lba: int)
    requires batch != []
    ensures WriteStart(batch, lba) == lba <==> |batch| == 1
    ensures WriteStart(batch, lba) == lba + BatchBlks(batch) - batch[|batch| - 1].ent.Blks()
    ensures WriteStart(batch, lba) >= lba
    decreases |batch|
  {
    if |batch| > 1 {
      PlacementExactly(batch[1..], lba + batch[0].ent.Blks());
    } else {
      assert batch[1..] == [];
    }
  }

  function BatchHolders(batch: seq<Write>, b: int): nat {
    if batch == [] then 0 else (if batch[0].ent.Has(b) then 1 else 0) + BatchHolders(batch[1..], b)
  }

  /** The entries of a flushed batch tile the allocated range. */
  lemma {:induction false} AssignTiles(batch: seq<Write>, lba: int, b: int)
    ensures BatchHolders(Assign(batch, lba), b) == if InRange(b, lba, BatchBlks(batch)) then 1 else 0
    decreases |batch|
  {
    if batch != [] {
      var r := Assign(batch, lba);
      assert r[1..] == Assign(batch[1..], lba + batch[0].ent.Blks());
      assert r[0].ent.Blks() == batch[0].ent.Blks();
      AssignTiles(batch[1..], lba + batch[0].ent.Blks(), b);
    }
  }

  /** In order: entry i starts where the blocks of the entries before it end. */
  lemma {:induction false} AssignInOrder(batch: seq<Write>, lba: int, i: nat)
    requires i < |batch|
    ensures |Assign(batch, lba)| == |batch|
    ensures Assign(batch, lba)[i] == Write(batch[i].ent.(lba := lba + BatchBlks(batch[..i])), batch[i].val)
    decreases |batch|
  {
    if i == 0 {
      AssignLength(batch, lba);
      assert batch[..0] == [];
    } else {
      AssignInOrder(batch[1..], lba + batch[0].ent.Blks(), i - 1);
      var p := batch[..i];
      assert p[1..] == batch[1..][..i - 1];
    }
  }

  lemma {:induction false} AssignLength(batch: seq<Write>, lba: int)
    ensures |Assign(batch, lba)| == |batch|
    decreases |batch|
  {
    if batch != [] {
      AssignLength(batch[1..], lba + batch[0].ent.Blks());
    }
  }

  // ---------------------------------------------------------------------------------------------
  // The operations as functions
  // ---------------------------------------------------------------------------------------------

  function BucketOf(hash: Key -> nat, key: Key): (h: nat)
    ensures h < MAX_ENTRIES
  {
    hash(key) % MAX_ENTRIES
  }

  ghost predicate Shaped(s: Store) {
    |s.buckets| == MAX_ENTRIES && |s.dev| == MAX_LBA_NUM * LBA_SIZE && Canonical(s.free)
  }

  /** get_index_ent. */
  function Find(s: Store, hash: Key -> nat, key: Key): Option<IndexEnt>
    requires |s.buckets| == MAX_ENTRIES
  {
    Lookup(s.buckets[BucketOf(hash, key)], key)
  }

  /** get_version plus one: the version is a uint16_t and wraps. */
  function NextVersion(prior: Option<IndexEnt>): nat {
    ((if prior.Some? then prior.value.version else 0) + 1) % 65536
  }

  /** new_index_ent. */
  function NewEnt(s: Store, hash: Key -> nat, key: Key, val: seq<byte>): IndexEnt
    requires |s.buckets| == MAX_ENTRIES
  {
    IndexEnt(key, 0, |val|, Crc32.Crc(val), NextVersion(Find(s, hash, key)))
  }

  /** bsys_io_write. */
  function Put(s: Store, hash: Key -> nat, key: Key, val: seq<byte>): Store
    requires |s.buckets| == MAX_ENTRIES
  {
    s.(batch := s.batch + [Write(NewEnt(s, hash, key, val), val)])
  }

  function WriteAt(dev: seq<byte>, off: nat, bytes: seq<byte>): (r: seq<byte>)
    requires off + |bytes| <= |dev|
    ensures |r| == |dev|
  {
    dev[..off] + bytes + dev[off + |bytes|..]
  }

  function Images(batch: seq<Write>): seq<byte>
    requires forall i | 0 <= i < |batch| :: |batch[i].ent.key| <= MAX_KEY_LEN
  {
    if batch == [] then [] else Image(batch[0]) + Images(batch[1..])
  }

  /** Where a flush puts its bytes. */
  function FlushBase(s: Store): int {
    GetBlk(s.free, BatchBlks(s.batch)).0
  }

  /** A flush can go ahead: there is room for the batch, the device write stays on the device and, as
      dummy_dev_writev asserts, is not longer than the blocks of the batch. */
  ghost predicate Flushable(s: Store) {
    && s.batch != []
    && (forall i | 0 <= i < |s.batch| :: |s.batch[i].ent.key| <= MAX_KEY_LEN)
    && FirstFit(s.free, BatchBlks(s.batch), 0) < |s.free|
    && 0 <= FlushBase(s)
    && |Assign(s.batch, FlushBase(s))| == |s.batch|
    && (forall i | 0 <= i < |s.batch| :: |Assign(s.batch, FlushBase(s))[i].ent.key| <= MAX_KEY_LEN)
    && |Images(Assign(s.batch, FlushBase(s)))| <= BatchBlks(s.batch) * LBA_SIZE
    && 0 <= WriteStart(s.batch, FlushBase(s)) * LBA_SIZE
    && WriteStart(s.batch, FlushBase(s)) * LBA_SIZE + |Images(Assign(s.batch, FlushBase(s)))| <= |s.dev|
  }

  /** bsys_io_write_flush. */
  function Flush(s: Store): Store
    requires Flushable(s)
  {
    var (base, free) := GetBlk(s.free, BatchBlks(s.batch));
    var batch := Assign(s.batch, base);
    s.(free := free, batch := batch, inFlight := true,
       dev := WriteAt(s.dev, WriteStart(s.batch, base) * LBA_SIZE, Images(batch)))
  }

  /** update_index must be able to give the blocks of a displaced entry back. */
  ghost predicate Updatable(s: Store, hash: Key -> nat, e: IndexEnt) {
    |s.buckets| == MAX_ENTRIES &&
    (Find(s, hash, e.key).Some? ==> RoomAbove(s.free, Find(s, hash, e.key).value.lba))
  }

  /** update_index. */
  function Update(s: Store, hash: Key -> nat, e: IndexEnt): Store
    requires Updatable(s, hash, e)
  {
    var h := BucketOf(hash, e.key);
    var prior := Find(s, hash, e.key);
    s.(buckets := s.buckets[h := UpdateChain(s.buckets[h], e)],
       free := if prior.Some? then FreeBlk(s.free, prior.value.lba, prior.value.Blks()) else s.free)
  }

  ghost predicate Completable(s: Store, hash: Key -> nat, ws: seq<Write>)
    decreases |ws|
  {
    ws != [] ==> Updatable(s, hash, ws[0].ent) && Completable(Update(s, hash, ws[0].ent), hash, ws[1..])
  }

  /** The loop of io_write_cb. */
  function UpdateAll(s: Store, hash: Key -> nat, ws: seq<Write>): Store
    requires Completable(s, hash, ws)
    decreases |ws|
  {
    if ws == [] then s else UpdateAll(Update(s, hash, ws[0].ent), hash, ws[1..])
  }

  /** io_write_cb: the batch in flight is complete. */
  function Complete(s: Store, hash: Key -> nat): Store
    requires Completable(s, hash, s.batch)
  {
    UpdateAll(s, hash, s.batch).(batch := [], inFlight := false)
  }

  // ---------------------------------------------------------------------------------------------
  // Conservation of blocks
  // ---------------------------------------------------------------------------------------------

  /** How often block b is accounted for: free, in the index, in the batch in flight. */
  function Accounts(s: Store, inFlight: seq<Write>, b: int): nat {
    (if Free(s.free, b) then 1 else 0) + AllHolders(s.buckets, b) + BatchHolders(inFlight, b)
  }

  /** Every block of the device is accounted for exactly once, and nothing else is. */
  ghost predicate Balanced(s: Store, inFlight: seq<Write>) {
    forall b :: Accounts(s, inFlight, b) == if InRange(b, 0, MAX_LBA_NUM) then 1 else 0
  }

  ghost predicate Conserved(s: Store) {
    |s.buckets| == MAX_ENTRIES && Canonical(s.free) && Balanced(s, if s.inFlight then s.batch else [])
  }

  /** update_index moves the accounts of one batch entry to the index and those of the displaced entry
      to the free list. */
  lemma UpdateBalanced(s: Store, hash: Key -> nat, ws: seq<Write>)
    requires Canonical(s.free) && ws != [] && Updatable(s, hash, ws[0].ent) && Balanced(s, ws)
    ensures var r := Update(s, hash, ws[0].ent); Canonical(r.free) && Balanced(r, ws[1..])
  {
    var e := ws[0].ent;
    var prior := Find(s, hash, e.key);
    var r := Update(s, hash, e);
    if prior.Some? {
      DisplacedUsed(s, hash, e.key, ws);
      FreeBlkGives(s.free, prior.value.lba, prior.value.Blks(), 0);
    }
    forall b
      ensures Accounts(r, ws[1..], b) == if InRange(b, 0, MAX_LBA_NUM) then 1 else 0
    {
      UpdateAccounts(s, hash, ws, b);
    }
  }

  /** The blocks of an indexed entry are not free. */
  lemma DisplacedUsed(s: Store, hash: Key -> nat, key: Key, ws: seq<Write>)
    requires |s.buckets| == MAX_ENTRIES && Balanced(s, ws) && Find(s, hash, key).Some?
    ensures var prior := Find(s, hash, key).value; NoneFree(s.free, prior.lba, prior.Blks())
  {
    var prior := Find(s, hash, key).value;
    var h := BucketOf(hash, key);
    forall b | InRange(b, prior.lba, prior.Blks())
      ensures !Free(s.free, b)
    {
      HoldersAtLeast(s.buckets[h], key, b);
      AllHoldersAtLeast(s.buckets, h, b);
      assert Accounts(s, ws, b) <= 1;
    }
  }

  lemma UpdateAccounts(s: Store, hash: Key -> nat, ws: seq<Write>, b: int)
    requires Canonical(s.free) && ws != [] && Updatable(s, hash, ws[0].ent) && Balanced(s, ws)
    ensures Accounts(Update(s, hash, ws[0].ent), ws[1..], b) == Accounts(s, ws, b)
  {
    var e := ws[0].ent;
    var h := BucketOf(hash, e.key);
    var prior := Find(s, hash, e.key);
    UpdateHolders(s.buckets[h], e, b);
    AllHoldersUpdate(s.buckets, h, UpdateChain(s.buckets[h], e), b);
    if prior.Some? {
      DisplacedUsed(s, hash, e.key, ws);
      FreeBlkGives(s.free, prior.value.lba, prior.value.Blks(), b);
      assert InRange(b, prior.value.lba, prior.value.Blks()) <==> prior.value.Has(b);
    }
  }

  lemma {:induction false} UpdateAllBalanced(s: Store, hash: Key -> nat, ws: seq<Write>)
    requires Canonical(s.free) && |s.buckets| == MAX_ENTRIES && Completable(s, hash, ws) && Balanced(s, ws)
    ensures var r := UpdateAll(s, hash, ws);
            Canonical(r.free) && |r.buckets| == MAX_ENTRIES && Balanced(r, [])
    decreases |ws|
  {
    if ws != [] {
      UpdateBalanced(s, hash, ws);
      UpdateAllBalanced(Update(s, hash, ws[0].ent), hash, ws[1..]);
    }
  }

  lemma CompleteConserves(s: Store, hash: Key -> nat)
    requires Conserved(s) && s.inFlight && Completable(s, hash, s.batch)
    ensures Conserved(Complete(s, hash))
  {
    UpdateAllBalanced(s, hash, s.batch);
    var u := UpdateAll(s, hash, s.batch);
    assert forall b :: Accounts(u, [], b) == Accounts(Complete(s, hash), [], b);
  }

  lemma BatchBlksPositive(batch: seq<Write>)
    requires batch != []
    ensures BatchBlks(batch) > 0
  {
  }

  lemma FlushConserves(s: Store)
    requires Conserved(s) && !s.inFlight && Flushable(s)
    ensures Conserved(Flush(s))
  {
    var n := BatchBlks(s.batch);
    var (base, free) := GetBlk(s.free, n);
    var r := Flush(s);
    BatchBlksPositive(s.batch);
    GetBlkTakes(s.free, n, 0);
    forall b
      ensures Accounts(r, r.batch, b) == if InRange(b, 0, MAX_LBA_NUM) then 1 else 0
    {
      GetBlkTakes(s.free, n, b);
      AssignTiles(s.batch, base, b);
      assert Accounts(s, [], b) == if InRange(b, 0, MAX_LBA_NUM) then 1 else 0;
    }
  }

  // ---------------------------------------------------------------------------------------------
  // Runs
  // ---------------------------------------------------------------------------------------------

  datatype Event = PutEvent(key: Key, val: seq<byte>) | FlushEvent | CompleteEvent

  /** A flush completes before anything else is done to the batch. */
  ghost predicate Enabled(s: Store, hash: Key -> nat, e: Event) {
    |s.buckets| == MAX_ENTRIES &&
    match e
    case PutEvent(_, _) => !s.inFlight
    case FlushEvent => !s.inFlight && Flushable(s)
    case CompleteEvent => s.inFlight && Completable(s, hash, s.batch)
  }

  ghost function Apply(s: Store, hash: Key -> nat, e: Event): Store
    requires Enabled(s, hash, e)
  {
    match e
    case PutEvent(key, val) => Put(s, hash, key, val)
    case FlushEvent => Flush(s)
    case CompleteEvent => Complete(s, hash)
  }

  ghost predicate Legal(s: Store, hash: Key -> nat, events: seq<Event>)
    decreases |events|
  {
    events != [] ==> Enabled(s, hash, events[0]) && Legal(Apply(s, hash, events[0]), hash, events[1..])
  }

  ghost function Exec(s: Store, hash: Key -> nat, events: seq<Event>): Store
    requires Legal(s, hash, events)
    decreases |events|
  {
    if events == [] then s else Exec(Apply(s, hash, events[0]), hash, events[1..])
  }

  /** freelist_init and an empty index. */
  function Fresh(dev: seq<byte>): Store {
    Store(Initial(MAX_LBA_NUM), seq(MAX_ENTRIES, _ => []), dev, [], false)
  }

  lemma FreshConserved(dev: seq<byte>)
    ensures Conserved(Fresh(dev))
  {
    var s := Fresh(dev);
    assert s.free[1..] == [];
    forall b
      ensures Accounts(s, [], b) == if InRange(b, 0, MAX_LBA_NUM) then 1 else 0
    {
      FreeOne(Extent(0, MAX_LBA_NUM), b);
      AllHoldersEmpty(s.buckets, b);
      assert BatchHolders([], b) == 0;
    }
  }

  lemma PutConserves(s: Store, hash: Key -> nat, key: Key, val: seq<byte>)
    requires Conserved(s) && !s.inFlight
    ensures Conserved(Put(s, hash, key, val))
  {
    var r := Put(s, hash, key, val);
    assert forall b :: Accounts(r, [], b) == Accounts(s, [], b);
  }

  lemma ApplyConserves(s: Store, hash: Key -> nat, e: Event)
    requires Conserved(s) && Enabled(s, hash, e)
    ensures Conserved(Apply(s, hash, e))
  {
    match e
    case PutEvent(key, val) => PutConserves(s, hash, key, val);
    case FlushEvent => FlushConserves(s);
    case CompleteEvent => CompleteConserves(s, hash);
  }

  lemma {:induction false} ExecConserves(s: Store, hash: Key -> nat, events: seq<Event>)
    requires Conserved(s) && Legal(s, hash, events)
    ensures Conserved(Exec(s, hash, events))
    decreases |events|
  {
    if events != [] {
      ApplyConserves(s, hash, events[0]);
      ExecConserves(Apply(s, hash, events[0]), hash, events[1..]);
    }
  }

  /** Over any run of puts, flushes and completions, with batches of any size and any keys, every block
      of the device is in exactly one place: free, in one indexed entry, or in one entry in flight. */
  lemma Conservation(dev: seq<byte>, hash: Key -> nat, events: seq<Event>, b: int)
    requires Legal(Fresh(dev), hash, events)
    ensures var s := Exec(Fresh(dev), hash, events);
      Canonical(s.free) &&
      (if Free(s.free, b) then 1 else 0) + AllHolders(s.buckets, b) +
        BatchHolders(if s.inFlight then s.batch else [], b) == if 0 <= b < MAX_LBA_NUM then 1 else 0
  {
    FreshConserved(dev);
    ExecConserves(Fresh(dev), hash, events);
    var s := Exec(Fresh(dev), hash, events);
    assert Accounts(s, if s.inFlight then s.batch else [], b) == if InRange(b, 0, MAX_LBA_NUM) then 1 else 0;
  }

  // ---------------------------------------------------------------------------------------------
  // Reading back
  // ---------------------------------------------------------------------------------------------

  /** Between batches. */
  ghost predicate Quiet(s: Store) {
    Shaped(s) && Conserved(s) && s.batch == [] && !s.inFlight
  }

  /** Between batches, with keys none of which begins another of its bucket. */
  ghost predicate Settled(s: Store) {
    && Quiet(s)
    && (forall h | 0 <= h < MAX_ENTRIES :: PrefixFree(s.buckets[h]))
  }

  /** Where the bytes of an entry lie. */
  predicate OnDevice(e: IndexEnt) {
    0 <= e.lba && e.lba + e.Blks() <= MAX_LBA_NUM
  }

  lemma EnoughBlocks(len: nat)
    ensures META_SZ + len <= NumBlks(len) * LBA_SIZE
  {
    if len > DATA_SZ {
      var d := len - DATA_SZ;
      var q := (d + LBA_SIZE - 1) / LBA_SIZE;
      assert LBA_SIZE * q >= d;
    }
  }

  lemma FoundOnDevice(s: Store, hash: Key -> nat, key: Key)
    requires Conserved(s) && Find(s, hash, key).Some?
    ensures OnDevice(Find(s, hash, key).value)
    ensures NoneFree(s.free, Find(s, hash, key).value.lba, Find(s, hash, key).value.Blks())
  {
    var e := Find(s, hash, key).value;
    var ws := if s.inFlight then s.batch else [];
    DisplacedUsed(s, hash, key, ws);
    FoundAt(s, hash, key, ws, e.lba);
    FoundAt(s, hash, key, ws, e.lba + e.Blks() - 1);
  }

  lemma FoundAt(s: Store, hash: Key -> nat, key: Key, ws: seq<Write>, b: int)
    requires |s.buckets| == MAX_ENTRIES && Balanced(s, ws)
    requires Find(s, hash, key).Some? && Find(s, hash, key).value.Has(b)
    ensures InRange(b, 0, MAX_LBA_NUM)
  {
    var h := BucketOf(hash, key);
    HoldersAtLeast(s.buckets[h], key, b);
    AllHoldersAtLeast(s.buckets, h, b);
    assert Accounts(s, ws, b) >= 1;
  }

  /** The bytes that io_read_cb hands up. */
  function ValueOf(dev: seq<byte>, e: IndexEnt): seq<byte>
    requires |dev| == MAX_LBA_NUM * LBA_SIZE && OnDevice(e)
  {
    EnoughBlocks(e.valLen);
    var off := e.lba * LBA_SIZE + META_SZ;
    dev[off..off + e.valLen]
  }

  /** bsys_io_read and its completion; the source asserts that an entry read has at most four blocks. */
  ghost function Get(s: Store, hash: Key -> nat, key: Key): Option<seq<byte>>
    requires Shaped(s) && Conserved(s)
  {
    var e := Find(s, hash, key);
    if e.None? then None else FoundOnDevice(s, hash, key); Some(ValueOf(s.dev, e.value))
  }

  /** A put under a key that neither begins another key of its bucket nor is begun by one. */
  ghost predicate Admissible(s: Store, hash: Key -> nat, key: Key, val: seq<byte>)
    requires |s.buckets| == MAX_ENTRIES
  {
    Feasible(s, hash, key, val) && Unambiguous(s.buckets[BucketOf(hash, key)], key)
  }

  /** A put that can be followed by its own flush and completion. */
  ghost predicate Feasible(s: Store, hash: Key -> nat, key: Key, val: seq<byte>)
    requires |s.buckets| == MAX_ENTRIES
  {
    var prior := Find(s, hash, key);
    && IsKey(key) && FillsBlocks(|val|)
    && FirstFit(s.free, NumBlks(|val|), 0) < |s.free|
    && (prior.Some? ==> RoomAbove(GetBlk(s.free, NumBlks(|val|)).1, prior.value.lba))
  }

  /** The single write, with its block number. */
  function Placed(s: Store, hash: Key -> nat, key: Key, val: seq<byte>): Write
    requires |s.buckets| == MAX_ENTRIES
  {
    Write(NewEnt(s, hash, key, val).(lba := GetBlk(s.free, NumBlks(|val|)).0), val)
  }

  lemma AllocatedOnDevice(s: Store, n: nat)
    requires Conserved(s) && !s.inFlight && n > 0 && FirstFit(s.free, n, 0) < |s.free|
    ensures var base := GetBlk(s.free, n).0;
            AllFree(s.free, base, n) && 0 <= base && base + n <= MAX_LBA_NUM
  {
    var base := GetBlk(s.free, n).0;
    GetBlkTakes(s.free, n, base);
    assert InRange(base, base, n) && InRange(base + n - 1, base, n);
    assert Accounts(s, [], base) >= 1 && Accounts(s, [], base + n - 1) >= 1;
  }

  lemma SingleBatch(w: Write, lba: int)
    requires |w.ent.key| <= MAX_KEY_LEN
    ensures var r := Write(w.ent.(lba := lba), w.val);
      && BatchBlks([w]) == w.ent.Blks() && Assign([w], lba) == [r] && WriteStart([w], lba) == lba
      && Images([r]) == Image(r)
  {
    assert [w][1..] == [];
    var r := Write(w.ent.(lba := lba), w.val);
    assert [r][1..] == [];
    assert Image(r) + [] == Image(r);
  }

  /** What the flush of a single write does. */
  lemma FlushOne(s: Store, w: Write)
    requires Shaped(s) && Conserved(s) && !s.inFlight && s.batch == [w] && w.ent.valLen == |w.val|
    requires |w.ent.key| <= MAX_KEY_LEN && FillsBlocks(|w.val|) && FirstFit(s.free, w.ent.Blks(), 0) < |s.free|
    ensures var (base, free) := GetBlk(s.free, w.ent.Blks());
      var r := Write(w.ent.(lba := base), w.val);
      && Flushable(s) && OnDevice(r.ent) && |Image(r)| == r.ent.Blks() * LBA_SIZE
      && AllFree(s.free, base, w.ent.Blks())
      && Flush(s) == s.(free := free, batch := [r], inFlight := true,
                        dev := WriteAt(s.dev, base * LBA_SIZE, Image(r)))
  {
    var n := w.ent.Blks();
    AllocatedOnDevice(s, n);
    var base := GetBlk(s.free, n).0;
    SingleBatch(w, base);
    var r := Write(w.ent.(lba := base), w.val);
    assert r.ent.Blks() == n;
    ImageFillsExactly(r);
  }

  /** Bytes away from a write are not touched; the bytes of the write are. */
  lemma WriteAtElsewhere(dev: seq<byte>, off: nat, bytes: seq<byte>, a: nat, b: nat)
    requires off + |bytes| <= |dev| && a <= b <= |dev| && (b <= off || off + |bytes| <= a)
    ensures WriteAt(dev, off, bytes)[a..b] == dev[a..b]
  {
  }

  lemma WriteAtThere(dev: seq<byte>, off: nat, bytes: seq<byte>, i: nat, j: nat)
    requires off + |bytes| <= |dev| && i <= j <= |bytes|
    ensures WriteAt(dev, off, bytes)[off + i..off + j] == bytes[i..j]
  {
  }

  /** Where the bytes of an entry start and end, in blocks. */
  lemma ValueInBlocks(e: IndexEnt)
    requires OnDevice(e)
    ensures var off := e.lba * LBA_SIZE + META_SZ;
      e.lba * LBA_SIZE <= off && off + e.valLen <= (e.lba + e.Blks()) * LBA_SIZE <= MAX_LBA_NUM * LBA_SIZE
  {
    EnoughBlocks(e.valLen);
  }

  /** A device write of whole blocks and an entry that lies outside of them. */
  lemma OutsideWrite(dev: seq<byte>, start: nat, n: nat, image: seq<byte>, e: IndexEnt, dev1: seq<byte>)
    requires |dev| == MAX_LBA_NUM * LBA_SIZE && OnDevice(e) && |image| <= n * LBA_SIZE
    requires e.lba + e.Blks() <= start || start + n <= e.lba
    requires start * LBA_SIZE + |image| <= |dev| && dev1 == WriteAt(dev, start * LBA_SIZE, image)
    ensures ValueOf(dev1, e) == ValueOf(dev, e)
  {
    ValueInBlocks(e);
    var off := e.lba * LBA_SIZE + META_SZ;
    WriteAtElsewhere(dev, start * LBA_SIZE, image, off, off + e.valLen);
  }

  /** ... and one that begins where it does. */
  lemma AtWrite(dev: seq<byte>, start: nat, image: seq<byte>, e: IndexEnt, dev1: seq<byte>)
    requires |dev| == MAX_LBA_NUM * LBA_SIZE && OnDevice(e) && e.lba == start && META_SZ + e.valLen <= |image|
    requires start * LBA_SIZE + |image| <= |dev| && dev1 == WriteAt(dev, start * LBA_SIZE, image)
    ensures ValueOf(dev1, e) == image[META_SZ..META_SZ + e.valLen]
  {
    ValueInBlocks(e);
    WriteAtThere(dev, start * LBA_SIZE, image, META_SZ, META_SZ + e.valLen);
  }

  /** The device write of `w` leaves the value of any entry outside its blocks alone ... */
  lemma OtherValueKept(dev: seq<byte>, w: Write, e: IndexEnt)
    requires |dev| == MAX_LBA_NUM * LBA_SIZE && OnDevice(w.ent) && OnDevice(e)
    requires |w.ent.key| <= MAX_KEY_LEN && |Image(w)| == w.ent.Blks() * LBA_SIZE
    requires w.ent.lba + w.ent.Blks() <= e.lba || e.lba + e.Blks() <= w.ent.lba
    ensures w.ent.lba * LBA_SIZE + |Image(w)| <= |dev|
    ensures ValueOf(WriteAt(dev, w.ent.lba * LBA_SIZE, Image(w)), e) == ValueOf(dev, e)
  {
    var start, image := w.ent.lba, Image(w);
    OutsideWrite(dev, start, w.ent.Blks(), image, e, WriteAt(dev, start * LBA_SIZE, image));
  }

  /** ... and stores its own. */
  lemma OwnValueStored(dev: seq<byte>, w: Write)
    requires |dev| == MAX_LBA_NUM * LBA_SIZE && OnDevice(w.ent) && w.ent.valLen == |w.val|
    requires |w.ent.key| <= MAX_KEY_LEN && |Image(w)| == w.ent.Blks() * LBA_SIZE
    ensures w.ent.lba * LBA_SIZE + |Image(w)| <= |dev|
    ensures ValueOf(WriteAt(dev, w.ent.lba * LBA_SIZE, Image(w)), w.ent) == w.val
  {
    var start, image := w.ent.lba, Image(w);
    ImageValue(w);
    AtWrite(dev, start, image, w.ent, WriteAt(dev, start * LBA_SIZE, image));
  }

  lemma ImageValue(w: Write)
    requires |w.ent.key| <= MAX_KEY_LEN
    ensures |Image(w)| >= META_SZ + |w.val| && Image(w)[META_SZ..META_SZ + |w.val|] == w.val
  {
  }

  // ---------------------------------------------------------------------------------------------
  // A batch of one write, completed
  // ---------------------------------------------------------------------------------------------

  lemma CompleteOne(s: Store, hash: Key -> nat, w: Write)
    requires s.batch == [w] && Updatable(s, hash, w.ent)
    ensures Completable(s, hash, s.batch)
    ensures Complete(s, hash) == Update(s, hash, w.ent).(batch := [], inFlight := false)
  {
    assert s.batch[1..] == [];
    var u := Update(s, hash, w.ent);
    assert Completable(u, hash, []) && UpdateAll(u, hash, []) == u;
    assert UpdateAll(s, hash, s.batch) == UpdateAll(u, hash, s.batch[1..]);
  }

  /** The image of a put fits where it is placed. */
  lemma PutFits(s: Store, hash: Key -> nat, key: Key, val: seq<byte>)
    requires Quiet(s) && Feasible(s, hash, key, val)
    ensures var w := Placed(s, hash, key, val);
      && OnDevice(w.ent) && |Image(w)| == NumBlks(|val|) * LBA_SIZE
      && w.ent.lba * LBA_SIZE + |Image(w)| <= |s.dev|
  {
    var w := Placed(s, hash, key, val);
    AllocatedOnDevice(s, w.ent.Blks());
    ImageFillsExactly(w);
  }

  /** A put can be flushed, and the flush completed. */
  lemma PutReady(s: Store, hash: Key -> nat, key: Key, val: seq<byte>)
    requires Quiet(s) && Feasible(s, hash, key, val)
    ensures var w := Placed(s, hash, key, val);
      0 <= w.ent.lba * LBA_SIZE && w.ent.lba * LBA_SIZE + |Image(w)| <= |s.dev|
    ensures var p, w := Put(s, hash, key, val), Placed(s, hash, key, val);
      && Flushable(p) && Completable(Flush(p), hash, Flush(p).batch)
      && Flush(p) == s.(free := GetBlk(s.free, NumBlks(|val|)).1, batch := [w], inFlight := true,
                        dev := WriteAt(s.dev, w.ent.lba * LBA_SIZE, Image(w)))
      && Updatable(Flush(p), hash, w.ent)
      && Complete(Flush(p), hash) == Update(Flush(p), hash, w.ent).(batch := [], inFlight := false)
  {
    var p, w := Put(s, hash, key, val), Placed(s, hash, key, val);
    PutConserves(s, hash, key, val);
    PutFits(s, hash, key, val);
    assert p.batch == [Write(NewEnt(s, hash, key, val), val)];
    FlushOne(p, p.batch[0]);
    CompleteOne(Flush(p), hash, w);
  }

  /** The effect of bsys_io_write, bsys_io_write_flush and io_write_cb in a row (`PutNowIs`). */
  ghost function PutNow(s: Store, hash: Key -> nat, key: Key, val: seq<byte>): Store
    requires Quiet(s) && Feasible(s, hash, key, val)
  {
    PutFits(s, hash, key, val);
    var w := Placed(s, hash, key, val);
    Update(s.(free := GetBlk(s.free, NumBlks(|val|)).1, dev := WriteAt(s.dev, w.ent.lba * LBA_SIZE, Image(w))),
           hash, w.ent)
  }

  lemma PutNowIs(s: Store, hash: Key -> nat, key: Key, val: seq<byte>)
    requires Quiet(s) && Feasible(s, hash, key, val)
    ensures var p := Put(s, hash, key, val);
      && Flushable(p) && Completable(Flush(p), hash, Flush(p).batch)
      && PutNow(s, hash, key, val) == Complete(Flush(p), hash)
  {
    PutReady(s, hash, key, val);
  }

  lemma PutNowQuiet(s: Store, hash: Key -> nat, key: Key, val: seq<byte>)
    requires Quiet(s) && Feasible(s, hash, key, val)
    ensures Quiet(PutNow(s, hash, key, val))
  {
    PutNowIs(s, hash, key, val);
    PutConserves(s, hash, key, val);
    FlushConserves(Put(s, hash, key, val));
    CompleteConserves(Flush(Put(s, hash, key, val)), hash);
  }

  lemma PutNowSettled(s: Store, hash: Key -> nat, key: Key, val: seq<byte>)
    requires Settled(s) && Admissible(s, hash, key, val)
    ensures Settled(PutNow(s, hash, key, val))
  {
    PutNowQuiet(s, hash, key, val);
    UpdatePrefixFree(s.buckets[BucketOf(hash, key)], Placed(s, hash, key, val).ent);
  }

  /** Key `k` is not a proper beginning of `key`, or is looked for elsewhere. */
  predicate Clear(hash: Key -> nat, k: Key, key: Key) {
    k == key || BucketOf(hash, k) != BucketOf(hash, key) || !(k <= key)
  }

  /** What the index says afterwards. */
  lemma PutNowFind(s: Store, hash: Key -> nat, key: Key, val: seq<byte>, k: Key)
    requires Settled(s) && Admissible(s, hash, key, val) && Clear(hash, k, key)
    ensures |PutNow(s, hash, key, val).buckets| == MAX_ENTRIES
    ensures Find(PutNow(s, hash, key, val), hash, k) ==
              if k == key then Some(Placed(s, hash, key, val).ent) else Find(s, hash, k)
  {
    if BucketOf(hash, k) == BucketOf(hash, key) {
      UpdateThenLookup(s.buckets[BucketOf(hash, key)], Placed(s, hash, key, val).ent, k);
    }
  }

  /** Read your write, and nothing else changes: after a completed put, the value is read back in full,
      and any other key that is not a beginning of the one written, in its bucket, reads what it read before. */
  lemma PutGet(s: Store, hash: Key -> nat, key: Key, val: seq<byte>, k: Key)
    requires Settled(s) && Admissible(s, hash, key, val) && Clear(hash, k, key)
    ensures Settled(PutNow(s, hash, key, val))
    ensures Get(PutNow(s, hash, key, val), hash, k) == if k == key then Some(val) else Get(s, hash, k)
  {
    PutNowSettled(s, hash, key, val);
    PutNowFind(s, hash, key, val, k);
    FoundValueKept(s, hash, key, val, k);
  }

  /** Where the index finds the new entry, its value is on the device; where it finds what it found before,
      the value is the old one. */
  lemma FoundValueKept(s: Store, hash: Key -> nat, key: Key, val: seq<byte>, k: Key)
    requires Quiet(s) && Feasible(s, hash, key, val) && Quiet(PutNow(s, hash, key, val))
    requires Find(PutNow(s, hash, key, val), hash, k) ==
               if k == key then Some(Placed(s, hash, key, val).ent) else Find(s, hash, k)
    ensures Get(PutNow(s, hash, key, val), hash, k) == if k == key then Some(val) else Get(s, hash, k)
  {
    PutFits(s, hash, key, val);
    var w := Placed(s, hash, key, val);
    AllocatedOnDevice(s, w.ent.Blks());
    if k == key {
      OwnValueStored(s.dev, w);
    } else if Find(s, hash, k).Some? {
      var e := Find(s, hash, k).value;
      FoundOnDevice(s, hash, k);
      ApartFromFree(s.free, w.ent, e);
      OtherValueKept(s.dev, w, e);
    }
  }

  /** Until the completion, the put cannot be seen: every key reads as before. */
  lemma FlushHidden(s: Store, hash: Key -> nat, key: Key, val: seq<byte>, k: Key)
    requires Settled(s) && Admissible(s, hash, key, val)
    ensures Flushable(Put(s, hash, key, val))
    ensures var f := Flush(Put(s, hash, key, val)); Shaped(f) && Conserved(f) && Get(f, hash, k) == Get(s, hash, k)
  {
    PutReady(s, hash, key, val);
    PutConserves(s, hash, key, val);
    FlushConserves(Put(s, hash, key, val));
    var w := Placed(s, hash, key, val);
    AllocatedOnDevice(s, w.ent.Blks());
    ImageFillsExactly(w);
    if Find(s, hash, k).Some? {
      var e := Find(s, hash, k).value;
      FoundOnDevice(s, hash, k);
      ApartFromFree(s.free, w.ent, e);
      OtherValueKept(s.dev, w, e);
    }
  }

  /** Used blocks and free blocks do not overlap. */
  lemma ApartFromFree(free: seq<Extent>, w: IndexEnt, e: IndexEnt)
    requires AllFree(free, w.lba, w.Blks()) && NoneFree(free, e.lba, e.Blks())
    ensures w.lba + w.Blks() <= e.lba || e.lba + e.Blks() <= w.lba
  {
    assert InRange(e.lba, e.lba, e.Blks()) && InRange(w.lba, w.lba, w.Blks());
    assert !InRange(e.lba, w.lba, w.Blks()) && !InRange(w.lba, e.lba, e.Blks());
  }

  // ---------------------------------------------------------------------------------------------
  // The store refines a map
  // ---------------------------------------------------------------------------------------------

  datatype KeyVal = KeyVal(key: Key, val: seq<byte>)

  ghost predicate AllAdmissible(s: Store, hash: Key -> nat, puts: seq<KeyVal>)
    requires Settled(s)
    decreases |puts|
  {
    puts != [] ==>
      Admissible(s, hash, puts[0].key, puts[0].val) &&
      (PutNowSettled(s, hash, puts[0].key, puts[0].val);
       AllAdmissible(PutNow(s, hash, puts[0].key, puts[0].val), hash, puts[1..]))
  }

  ghost function PutAll(s: Store, hash: Key -> nat, puts: seq<KeyVal>): (r: Store)
    requires Settled(s) && AllAdmissible(s, hash, puts)
    ensures Settled(r)
    decreases |puts|
  {
    if puts == [] then s
    else
      PutNowSettled(s, hash, puts[0].key, puts[0].val);
      PutAll(PutNow(s, hash, puts[0].key, puts[0].val), hash, puts[1..])
  }

  /** The last value given to a key, in terms of the requests alone. */
  function LastValue(puts: seq<KeyVal>, k: Key, initially: Option<seq<byte>>): Option<seq<byte>> {
    if puts == [] then initially
    else if puts[|puts| - 1].key == k then Some(puts[|puts| - 1].val)
    else LastValue(puts[..|puts| - 1], k, initially)
  }

  lemma {:induction false} LastValueFirst(puts: seq<KeyVal>, k: Key, initially: Option<seq<byte>>)
    requires puts != []
    ensures LastValue(puts, k, initially) ==
              LastValue(puts[1..], k, if puts[0].key == k then Some(puts[0].val) else initially)
    decreases |puts|
  {
    if |puts| > 1 {
      var front := puts[..|puts| - 1];
      assert front[1..] == puts[1..][..|puts| - 2];
      LastValueFirst(front, k, initially);
    } else {
      assert puts[..0] == [];
    }
  }

  /** Over any run of completed puts, a key reads as the last value written under it, in full, or as
      what it was before the run. */
  lemma {:induction false} RefinesMap(s: Store, hash: Key -> nat, puts: seq<KeyVal>, k: Key)
    requires Settled(s) && AllAdmissible(s, hash, puts)
    requires forall i | 0 <= i < |puts| :: Clear(hash, k, puts[i].key)
    ensures Get(PutAll(s, hash, puts), hash, k) == LastValue(puts, k, Get(s, hash, k))
    decreases |puts|
  {
    if puts != [] {
      var key, val, rest := puts[0].key, puts[0].val, puts[1..];
      PutGet(s, hash, key, val, k);
      RefinesMap(PutNow(s, hash, key, val), hash, rest, k);
      LastValueFirst(puts, k, Get(s, hash, k));
    }
  }

  // ---------------------------------------------------------------------------------------------
  // Batches of more than one write
  // ---------------------------------------------------------------------------------------------

  ghost predicate AllFill(batch: seq<Write>) {
    forall i | 0 <= i < |batch| :: FillsBlocks(|batch[i].val|)
  }

  ghost predicate WellSized(batch: seq<Write>) {
    forall i | 0 <= i < |batch| ::
      |batch[i].ent.key| <= MAX_KEY_LEN && batch[i].ent.valLen == |batch[i].val|
  }

  /** The assertion in dummy_dev_writev holds exactly when every entry of the batch fills its blocks. */
  lemma {:induction false} BatchFitsExactly(batch: seq<Write>)
    requires WellSized(batch)
    ensures |Images(batch)| <= BatchBlks(batch) * LBA_SIZE <==> AllFill(batch)
    ensures |Images(batch)| >= BatchBlks(batch) * LBA_SIZE
    decreases |batch|
  {
    if batch != [] {
      var rest := batch[1..];
      BatchFitsExactly(rest);
      ImageFillsExactly(batch[0]);
      FillOneMore(batch, rest);
    }
  }

  lemma FillOneMore(batch: seq<Write>, rest: seq<Write>)
    requires batch != [] && rest == batch[1..]
    ensures AllFill(batch) <==> FillsBlocks(|batch[0].val|) && AllFill(rest)
  {
    if FillsBlocks(|batch[0].val|) && AllFill(rest) {
      forall i | 0 <= i < |batch|
        ensures FillsBlocks(|batch[i].val|)
      {
        if i > 0 {
          assert batch[i] == rest[i - 1];
        }
      }
    }
    if AllFill(batch) {
      assert forall i | 0 <= i < |rest| :: rest[i] == batch[i + 1];
    }
  }

  lemma {:induction false} AssignKeeps(batch: seq<Write>, lba: int)
    requires WellSized(batch)
    ensures WellSized(Assign(batch, lba)) && BatchBlks(Assign(batch, lba)) == BatchBlks(batch)
    decreases |batch|
  {
    if batch != [] {
      var rest := Assign(batch[1..], lba + batch[0].ent.Blks());
      AssignKeeps(batch[1..], lba + batch[0].ent.Blks());
      var r := Assign(batch, lba);
      assert r[1..] == rest;
      forall i | 0 <= i < |r|
        ensures |r[i].ent.key| <= MAX_KEY_LEN && r[i].ent.valLen == |r[i].val|
      {
        if i > 0 {
          assert r[i] == rest[i - 1];
        }
      }
    }
  }

  /** A flush writes exactly the blocks it reserved when the batch is a single write. With more than one
      it writes as many bytes, but starts behind the first entry, so that the blocks of the first entry
      keep their old contents and blocks that were not reserved are overwritten. */
  lemma FlushWritesReserved(s: Store)
    requires Flushable(s) && WellSized(s.batch)
    ensures var base, n := FlushBase(s), BatchBlks(s.batch);
            var start := WriteStart(s.batch, base);
      && |Images(Assign(s.batch, base))| == n * LBA_SIZE
      && (start == base <==> |s.batch| == 1)
      && (|s.batch| > 1 ==> start >= base + s.batch[0].ent.Blks())
  {
    var base := FlushBase(s);
    AssignKeeps(s.batch, base);
    BatchFitsExactly(Assign(s.batch, base));
    PlacementExactly(s.batch, base);
    if |s.batch| > 1 {
      PlacementExactly(s.batch[1..], base + s.batch[0].ent.Blks());
    }
  }

  lemma {:induction false} BlksBefore(batch: seq<Write>, i: nat, last: nat)
    requires i < |batch| && last == batch[|batch| - 1].ent.Blks()
    ensures i == |batch| - 1 ==> BatchBlks(batch[..i]) + last == BatchBlks(batch)
    ensures i < |batch| - 1 ==> BatchBlks(batch[..i]) + batch[i].ent.Blks() + last <= BatchBlks(batch)
    decreases |batch|
  {
    var rest := batch[1..];
    if i > 0 {
      assert batch[..i][1..] == rest[..i - 1] && rest[|rest| - 1] == batch[|batch| - 1] && rest[i - 1] == batch[i];
      BlksBefore(rest, i - 1, last);
    } else if |batch| > 1 {
      assert rest[|rest| - 1] == batch[|batch| - 1];
      BlksBefore(rest, |rest| - 1, last);
    } else {
      assert rest == [];
    }
  }

  /** Where entry i of a flushed batch is, and where the device write starts. */
  lemma BatchPlaces(s: Store, i: nat) returns (batch: seq<Write>, start: nat)
    requires Shaped(s) && Conserved(s) && !s.inFlight && Flushable(s) && WellSized(s.batch) && i < |s.batch|
    ensures batch == Assign(s.batch, FlushBase(s)) && start == WriteStart(s.batch, FlushBase(s))
    ensures |batch| == |s.batch| && WellSized(batch)
    ensures batch[0].val == s.batch[0].val && batch[i].val == s.batch[i].val
    ensures var e := batch[i].ent;
      && OnDevice(e) && e.valLen == |s.batch[i].val|
      && (if i < |s.batch| - 1 then e.lba + e.Blks() <= start else e.lba == start)
  {
    var base, n := FlushBase(s), BatchBlks(s.batch);
    BatchBlksPositive(s.batch);
    AllocatedOnDevice(s, n);
    PlacementExactly(s.batch, base);
    AssignInOrder(s.batch, base, i);
    AssignInOrder(s.batch, base, 0);
    AssignKeeps(s.batch, base);
    BlksBefore(s.batch, i, s.batch[|s.batch| - 1].ent.Blks());
    batch, start := Assign(s.batch, base), WriteStart(s.batch, base);
    assert batch[i].ent.Blks() == s.batch[i].ent.Blks();
  }

  /** What the entries of a flushed batch read, with more than one write in it: all but the last what was on
      their blocks before, and the last what the first of them wrote. */
  lemma BatchReads(s: Store, i: nat) returns (t: Store, e: IndexEnt)
    requires Shaped(s) && Conserved(s) && !s.inFlight && Flushable(s) && WellSized(s.batch) && i < |s.batch|
    ensures t == Flush(s) && |t.batch| == |s.batch| && |t.dev| == |s.dev| && e == t.batch[i].ent
    ensures OnDevice(e) && e.valLen == |s.batch[i].val|
    ensures i < |s.batch| - 1 ==> ValueOf(t.dev, e) == ValueOf(s.dev, e)
    ensures i == |s.batch| - 1 && |s.batch[i].val| <= |s.batch[0].val| ==>
              ValueOf(t.dev, e) == s.batch[0].val[..|s.batch[i].val|]
  {
    var batch, start := BatchPlaces(s, i);
    t, e := Flush(s), batch[i].ent;
    if i < |s.batch| - 1 {
      OutsideWrite(s.dev, start, BatchBlks(s.batch), Images(batch), e, t.dev);
    } else if e.valLen <= |s.batch[0].val| {
      FirstImage(batch, e.valLen);
      AtWrite(s.dev, start, Images(batch), e, t.dev);
    }
  }

  lemma FirstImage(batch: seq<Write>, n: nat)
    requires batch != [] && WellSized(batch) && n <= |batch[0].val|
    ensures META_SZ + n <= |Images(batch)| && Images(batch)[META_SZ..META_SZ + n] == batch[0].val[..n]
  {
    ImageValue(batch[0]);
    var image, all := Image(batch[0]), Images(batch);
    assert all[META_SZ..META_SZ + n] == image[META_SZ..META_SZ + n];
    assert image[META_SZ..META_SZ + n] == image[META_SZ..META_SZ + |batch[0].val|][..n];
  }

  // ---------------------------------------------------------------------------------------------
  // Keys that begin alike
  // ---------------------------------------------------------------------------------------------

  /** A completed put touches what key `k` finds. */
  ghost predicate PutDisturbs(s: Store, hash: Key -> nat, key: Key, val: seq<byte>, k: Key)
    requires |s.buckets| == MAX_ENTRIES
  {
    var h := BucketOf(hash, key);
    BucketOf(hash, k) == h && Disturbed(s.buckets[h], Placed(s, hash, key, val).ent, k)
  }

  /** The new entry is not the one it replaces: it lies on blocks that were free. */
  lemma PlacedIsNew(s: Store, hash: Key -> nat, key: Key, val: seq<byte>)
    requires Quiet(s) && Feasible(s, hash, key, val)
    ensures Find(s, hash, key) != Some(Placed(s, hash, key, val).ent)
  {
    var w := Placed(s, hash, key, val);
    AllocatedOnDevice(s, w.ent.Blks());
    if Find(s, hash, key) == Some(w.ent) {
      FoundOnDevice(s, hash, key);
      assert InRange(w.ent.lba, w.ent.lba, w.ent.Blks());
    }
  }

  /** After any completed put, whatever the keys: the key written finds the new entry, and another key finds
      what it found before exactly when the put does not touch it. */
  lemma PutFindExactly(s: Store, hash: Key -> nat, key: Key, val: seq<byte>, k: Key)
    requires Quiet(s) && Feasible(s, hash, key, val) && DistinctKeys(s.buckets[BucketOf(hash, key)])
    ensures |PutNow(s, hash, key, val).buckets| == MAX_ENTRIES
    ensures k == key ==> Find(PutNow(s, hash, key, val), hash, k) == Some(Placed(s, hash, key, val).ent)
    ensures k != key ==>
              (Find(PutNow(s, hash, key, val), hash, k) == Find(s, hash, k) <==> !PutDisturbs(s, hash, key, val, k))
  {
    var chain, e := s.buckets[BucketOf(hash, key)], Placed(s, hash, key, val).ent;
    PlacedIsNew(s, hash, key, val);
    WrittenFound(chain, e);
    if k != key {
      FoundKeptExactly(chain, e, k);
    }
  }

  /** So the value is always read back, and every key the put does not touch reads as before. */
  lemma PutGetAny(s: Store, hash: Key -> nat, key: Key, val: seq<byte>, k: Key)
    requires Quiet(s) && Feasible(s, hash, key, val) && DistinctKeys(s.buckets[BucketOf(hash, key)])
    requires k == key || !PutDisturbs(s, hash, key, val, k)
    ensures Quiet(PutNow(s, hash, key, val))
    ensures Get(PutNow(s, hash, key, val), hash, k) == if k == key then Some(val) else Get(s, hash, k)
  {
    PutNowQuiet(s, hash, key, val);
    PutFindExactly(s, hash, key, val, k);
    FoundValueKept(s, hash, key, val, k);
  }

  /** Of the keys of its bucket a put removes exactly the first that begins with the key written, if that is
      another one. */
  lemma PutRemovesExactly(s: Store, hash: Key -> nat, key: Key, val: seq<byte>, k: Key)
    requires Quiet(s) && Feasible(s, hash, key, val) && DistinctKeys(s.buckets[BucketOf(hash, key)])
    requires k != key && BucketOf(hash, k) == BucketOf(hash, key)
    ensures var h := BucketOf(hash, key);
      && |PutNow(s, hash, key, val).buckets| == MAX_ENTRIES
      && (ExactLookup(PutNow(s, hash, key, val).buckets[h], k) == ExactLookup(s.buckets[h], k) <==>
            !(Find(s, hash, key).Some? && Find(s, hash, key).value.key == k))
  {
    EntryKeptExactly(s.buckets[BucketOf(hash, key)], Placed(s, hash, key, val).ent, k);
  }
}
