/** The imperative form of the store: the block device of dp/core/dummy_dev.c, the index walks of
    dp/core/blk_index.c and the batch buffer of dp/core/io.c, each proved against the functions of
    `KvStore`. */
module BlkIo {
  import opened Common
  import opened Words
  import opened FreeLists
  import opened BlkIndex
  import opened KvStore
  import opened Recovery
  import Crc32

  const MBUF_DATA_LEN: nat := 2048

  class BlockDevice {
    const bytes: array<byte>

    constructor (size: nat)
      ensures fresh(bytes) && bytes[..] == Zeros(size)
    {
      bytes := new byte[size](_ => 0);
    }

    /** memcpy into the device. */
    method Copy(off: nat, src: seq<byte>)
      requires off + |src| <= bytes.Length
      modifies bytes
      ensures bytes[..] == WriteAt(old(bytes[..]), off, src)
    {
      ghost var before := bytes[..];
      for i := 0 to |src|
        invariant bytes[..] == WriteAt(before, off, src[..i])
      {
        ghost var now := bytes[..];
        bytes[off + i] := src[i];
        OneMore(before, off, src, i, now);
      }
      assert src[..|src|] == src;
    }

    static lemma OneMore(before: seq<byte>, off: nat, src: seq<byte>, i: nat, now: seq<byte>)
      requires off + |src| <= |before| && i < |src| && now == WriteAt(before, off, src[..i])
      ensures now[off + i := src[i]] == WriteAt(before, off, src[..i + 1])
    {
      assert src[..i + 1] == src[..i] + [src[i]];
    }

    /** dummy_dev_writev: the entries of the scatter-gather list one after the other. */
    method Writev(ents: seq<seq<byte>>, lba: int)
      requires 0 <= lba && lba * LBA_SIZE + |Flatten(ents)| <= bytes.Length
      modifies bytes
      ensures bytes[..] == WriteAt(old(bytes[..]), lba * LBA_SIZE, Flatten(ents))
    {
      var written := 0;
      ghost var before := bytes[..];
      ghost var done: seq<byte> := [];
      assert WriteAt(before, lba * LBA_SIZE, done) == before;
      for i := 0 to |ents|
        invariant written == |done| && done + Flatten(ents[i..]) == Flatten(ents)
        invariant lba * LBA_SIZE + written <= bytes.Length
        invariant bytes[..] == WriteAt(before, lba * LBA_SIZE, done)
      {
        FlattenStep(ents, i, done);
        Copy(lba * LBA_SIZE + written, ents[i]);
        WriteAtTwice(before, lba * LBA_SIZE, done, ents[i]);
        done := done + ents[i];
        written := written + |ents[i]|;
      }
      assert ents[|ents|..] == [];
      assert done + [] == done;
    }

    /** dummy_dev_read. */
    method Read(lba: int, count: nat) returns (r: seq<byte>)
      requires 0 <= lba && (lba + count) * LBA_SIZE <= bytes.Length
      ensures r == bytes[lba * LBA_SIZE..(lba + count) * LBA_SIZE]
    {
      r := bytes[lba * LBA_SIZE..(lba + count) * LBA_SIZE];
    }
  }

  function Flatten(ents: seq<seq<byte>>): seq<byte> {
    if ents == [] then [] else ents[0] + Flatten(ents[1..])
  }

  lemma FlattenStep(ents: seq<seq<byte>>, i: nat, done: seq<byte>)
    requires i < |ents| && done + Flatten(ents[i..]) == Flatten(ents)
    ensures (done + ents[i]) + Flatten(ents[i + 1..]) == Flatten(ents)
    ensures |done| + |ents[i]| <= |Flatten(ents)|
  {
    assert ents[i..][1..] == ents[i + 1..];
    assert (done + ents[i]) + Flatten(ents[i + 1..]) == done + (ents[i] + Flatten(ents[i + 1..]));
  }

  lemma {:induction false} FlattenAppend(a: seq<seq<byte>>, b: seq<seq<byte>>, ab: seq<seq<byte>>)
    requires ab == a + b
    ensures Flatten(ab) == Flatten(a) + Flatten(b)
    decreases |a|
  {
    if a == [] {
      assert ab == b;
    } else {
      assert ab[1..] == a[1..] + b;
      FlattenAppend(a[1..], b, ab[1..]);
    }
  }

  lemma WriteAtTwice(dev: seq<byte>, off: nat, a: seq<byte>, b: seq<byte>)
    requires off + |a| + |b| <= |dev|
    ensures WriteAt(WriteAt(dev, off, a), off + |a|, b) == WriteAt(dev, off, a + b)
  {
  }

  // ---------------------------------------------------------------------------------------------
  // Walking the chains and the batch
  // ---------------------------------------------------------------------------------------------

  /** key_lookup within a bucket. */
  method KeyLookup(chain: seq<IndexEnt>, key: Key) returns (ret: Option<IndexEnt>)
    ensures ret == Lookup(chain, key)
  {
    if chain == [] {
      return None;
    }
    var i := 0;
    if !Matches(chain[0].key, key) {
      while i + 1 < |chain|
        invariant i < |chain| && !Matches(chain[i].key, key) && Lookup(chain, key) == Lookup(chain[i..], key)
      {
        assert chain[i..][1..] == chain[i + 1..];
        i := i + 1;
        if Matches(chain[i].key, key) {
          break;
        }
      }
      if i + 1 == |chain| && !Matches(chain[i].key, key) {
        assert chain[i..][1..] == [];
        return None;
      }
    }
    return Some(chain[i]);
  }

  /** update_index within a bucket: the new chain, and the entry that was swapped out. */
  method UpdateBucket(chain: seq<IndexEnt>, meta: IndexEnt) returns (r: seq<IndexEnt>, oldent: Option<IndexEnt>)
    ensures r == UpdateChain(chain, meta) && oldent == Lookup(chain, meta.key)
  {
    if chain == [] {
      return [meta], None;
    }
    if Matches(chain[0].key, meta.key) {
      return [meta] + chain[1..], Some(chain[0]);
    }
    var i := 1;
    while i < |chain| && !Matches(chain[i].key, meta.key)
      invariant 1 <= i <= |chain| && Lookup(chain, meta.key) == Lookup(chain[i..], meta.key)
      invariant UpdateChain(chain, meta) == chain[..i] + UpdateChain(chain[i..], meta)
    {
      var next := chain[i..];
      assert next[1..] == chain[i + 1..];
      assert chain[..i] + ([chain[i]] + UpdateChain(next[1..], meta)) == chain[..i + 1] + UpdateChain(next[1..], meta);
      i := i + 1;
    }
    if i == |chain| {
      assert chain[i..] == [] && chain[..i] == chain;
      return chain + [meta], None;
    }
    assert chain[i..][1..] == chain[i + 1..];
    assert chain[..i] + ([meta] + chain[i + 1..]) == chain[..i] + [meta] + chain[i + 1..];
    return chain[..i] + [meta] + chain[i + 1..], Some(chain[i]);
  }

  /** The loop of bsys_io_write_flush: block numbers for the batch, and the start of the device write. */
  method AssignBlocks(batch: seq<Write>, base: int) returns (r: seq<Write>, startlba: int)
    requires batch != []
    ensures r == Assign(batch, base) && startlba == WriteStart(batch, base)
  {
    r, startlba := [], base;
    for i := 0 to |batch|
      invariant i == 0 ==> startlba == base && r == []
      invariant i > 0 ==> WriteStart(batch[i - 1..], startlba) == WriteStart(batch, base)
      invariant i > 0 ==> r + Assign(batch[i..], startlba + batch[i - 1].ent.Blks()) == Assign(batch, base)
    {
      ghost var rest := batch[i..];
      assert rest[1..] == batch[i + 1..];
      if i > 0 {
        var blks := batch[i - 1].ent.Blks();
        assert batch[i - 1..][1..] == rest;
        startlba := startlba + blks;
      }
      ghost var later := Assign(rest[1..], startlba + batch[i].ent.Blks());
      assert Assign(rest, startlba) == [Write(batch[i].ent.(lba := startlba), batch[i].val)] + later;
      assert r + ([Write(batch[i].ent.(lba := startlba), batch[i].val)] + later) ==
             (r + [Write(batch[i].ent.(lba := startlba), batch[i].val)]) + later;
      if i == 0 {
        assert rest == batch;
      }
      r := r + [Write(batch[i].ent.(lba := startlba), batch[i].val)];
    }
    assert batch[|batch|..] == [];
    assert r + [] == r;
  }

  /** Three scatter-gather entries a write. */
  method Gather(batch: seq<Write>) returns (ents: seq<seq<byte>>)
    requires forall i | 0 <= i < |batch| :: |batch[i].ent.key| <= MAX_KEY_LEN
    ensures Flatten(ents) == Images(batch)
  {
    ents := [];
    for i := 0 to |batch|
      invariant Flatten(ents) + Images(batch[i..]) == Images(batch)
    {
      ghost var before := ents;
      ents := ents + [Meta(batch[i].ent), batch[i].val, Zeros(NumZeros(|batch[i].val|))];
      GatherStep(before, batch[i], ents);
      ImagesStep(batch, i, Flatten(before));
    }
    assert batch[|batch|..] == [];
    assert Flatten(ents) + [] == Flatten(ents);
  }

  lemma GatherStep(before: seq<seq<byte>>, w: Write, ents: seq<seq<byte>>)
    requires |w.ent.key| <= MAX_KEY_LEN
    requires ents == before + [Meta(w.ent), w.val, Zeros(NumZeros(|w.val|))]
    ensures Flatten(ents) == Flatten(before) + Image(w)
  {
    FlattenThree(Meta(w.ent), w.val, Zeros(NumZeros(|w.val|)));
    FlattenAppend(before, [Meta(w.ent), w.val, Zeros(NumZeros(|w.val|))], ents);
  }

  lemma ImagesStep(batch: seq<Write>, i: nat, done: seq<byte>)
    requires forall j | 0 <= j < |batch| :: |batch[j].ent.key| <= MAX_KEY_LEN
    requires i < |batch| && done + Images(batch[i..]) == Images(batch)
    ensures (done + Image(batch[i])) + Images(batch[i + 1..]) == Images(batch)
  {
    assert batch[i..][1..] == batch[i + 1..];
    var image, rest := Image(batch[i]), Images(batch[i + 1..]);
    assert Images(batch[i..]) == image + rest;
    assert done + (image + rest) == (done + image) + rest;
  }

  lemma FlattenThree(a: seq<byte>, b: seq<byte>, c: seq<byte>)
    ensures Flatten([a, b, c]) == a + b + c
  {
    assert [a, b, c][1..] == [b, c] && [b, c][1..] == [c] && [c][1..] == [];
    assert Flatten([c]) == c + [] == c;
    assert Flatten([b, c]) == b + c;
    assert a + (b + c) == a + b + c;
  }

  // ---------------------------------------------------------------------------------------------
  // The store
  // ---------------------------------------------------------------------------------------------

  class BlockStore {
    const hash: Key -> nat
    const crc: Crc32.CrcTables
    const free: FreeList
    const dev: BlockDevice
    var indx: seq<seq<IndexEnt>>
    var batch: seq<Write>
    var numBlks: nat
    /** A device write has been issued and its callback is still to come. */
    ghost var inFlight: bool

    ghost predicate Valid()
      reads this, crc.lookup
    {
      crc.Valid() && |indx| == MAX_ENTRIES && numBlks == BatchBlks(batch)
    }

    ghost function Model(): Store
      reads this, free, dev.bytes
    {
      Store(free.list, indx, dev.bytes[..], batch, inFlight)
    }

    /** The state before anything has been put on the device. */
    constructor (hash: Key -> nat)
      ensures Valid() && fresh(free) && fresh(dev) && fresh(dev.bytes) && fresh(crc) && fresh(crc.lookup)
      ensures Model() == Fresh(Zeros(MAX_LBA_NUM * LBA_SIZE))
    {
      this.hash := hash;
      crc := new Crc32.CrcTables();
      free := new FreeList(MAX_LBA_NUM);
      dev := new BlockDevice(MAX_LBA_NUM * LBA_SIZE);
      indx := seq(MAX_ENTRIES, _ => []);
      batch, numBlks, inFlight := [], 0, false;
    }

    /** get_index_ent. */
    method GetIndexEnt(key: Key) returns (ret: Option<IndexEnt>)
      requires Valid()
      ensures ret == Find(Model(), hash, key)
    {
      ret := KeyLookup(indx[BucketOf(hash, key)], key);
    }

    /** bsys_io_read; the limit on the length is asserted in the source. */
    method IoRead(key: Key) returns (val: Option<seq<byte>>)
      requires Valid() && KvStore.Shaped(Model()) && Conserved(Model())
      requires Find(Model(), hash, key).Some? ==>
                 Find(Model(), hash, key).value.Blks() <= MBUF_DATA_LEN / LBA_SIZE
      ensures val == Get(Model(), hash, key)
    {
      var ent := GetIndexEnt(key);
      if ent.None? {
        return None;
      }
      FoundOnDevice(Model(), hash, key);
      EnoughBlocks(ent.value.valLen);
      var data := dev.Read(ent.value.lba, ent.value.Blks());
      SliceOfSlice(dev.bytes[..], ent.value.lba * LBA_SIZE, data, META_SZ, META_SZ + ent.value.valLen);
      return Some(data[META_SZ..META_SZ + ent.value.valLen]);
    }

    /** new_index_ent with get_version. */
    method NewIndexEnt(key: Key, val: seq<byte>) returns (ent: IndexEnt)
      requires Valid()
      ensures ent == NewEnt(Model(), hash, key, val)
    {
      var sum := crc.NewerCrc(val);
      var prior := GetIndexEnt(key);
      var version := NextVersion(prior);
      ent := IndexEnt(key, 0, |val|, sum, version);
    }

    /** bsys_io_write. */
    method IoWrite(key: Key, val: seq<byte>)
      requires Valid()
      modifies this
      ensures Valid() && Model() == Put(old(Model()), hash, key, val)
    {
      var newdata := NewIndexEnt(key, val);
      BatchBlksAppend(batch, Write(newdata, val));
      batch := batch + [Write(newdata, val)];
      numBlks := numBlks + NumBlks(|val|);
    }

    /** bsys_io_write_flush. */
    method IoWriteFlush()
      requires Valid() && (batch == [] || Flushable(Model()))
      modifies this, free, dev.bytes
      ensures Valid() && Model() == if old(batch) == [] then old(Model()) else Flush(old(Model()))
    {
      if numBlks == 0 {
        assert batch == [] by {
          if batch != [] {
            BatchBlksPositive(batch);
          }
        }
        return;
      }
      ghost var s := Model();
      var base := free.GetBlock(numBlks);
      assert base == FlushBase(s);
      var startlba;
      batch, startlba := AssignBlocks(batch, base);
      AssignBlks(s.batch, base);
      var sg := Gather(batch);
      dev.Writev(sg, startlba);
      inFlight := true;
    }

    /** update_index. */
    method UpdateIndex(meta: IndexEnt)
      requires Valid() && Canonical(free.list) && Updatable(Model(), hash, meta)
      requires var prior := Find(Model(), hash, meta.key);
        prior.Some? ==> NoneFree(free.list, prior.value.lba, prior.value.Blks())
      modifies this`indx, free
      ensures Valid() && Model() == Update(old(Model()), hash, meta)
    {
      var h := BucketOf(hash, meta.key);
      var chain, oldent := UpdateBucket(indx[h], meta);
      indx := indx[h := chain];
      if oldent.Some? {
        free.FreeBlock(oldent.value.lba, oldent.value.Blks());
      }
    }

    /** The part of init_cb that takes a record in. */
    method TakeIn(r: Rec)
      requires Valid() && r.good && SoundRec(r) && ScanInv(Model(), r.pos) && Wanted(Model(), hash, r)
      modifies this`indx, free
      ensures Valid() && Takable(old(Model()), hash, r) && Model() == Take(old(Model()), hash, r)
    {
      UpdatableWhileScanning(Model(), hash, r);
      TakeKeepsSpace(Model(), hash, r);
      if Find(Model(), hash, r.ent.key).Some? {
        FoundOnDevice(Model(), hash, r.ent.key);
      }
      UpdateAddsClaim(Model(), hash, r.ent, 0);
      UpdateIndex(r.ent);
      AllocFits(free.list, r.ent.lba, r.ent.Blks());
      free.Alloc(r.ent.lba, r.ent.Blks());
    }

    /** init_cb on a record. */
    method InitCb(r: Rec) returns (blks: nat)
      requires Valid() && ScanInv(Model(), r.pos) && SoundRec(r)
      modifies this`indx, free
      ensures blks == r.ent.Blks() && Valid()
      ensures Takable(old(Model()), hash, r) && Model() == Take(old(Model()), hash, r)
    {
      TakeKeepsSpace(Model(), hash, r);
      blks := r.ent.Blks();
      var prior := GetIndexEnt(r.ent.key);
      if (prior.None? || prior.value.version < r.ent.version) && r.good {
        TakeIn(r);
      }
    }

    /** Reading the block at `pos`: the magic number, the metadata and, for a record on the device, the
        checksum of the value. */
    method ReadBlock(pos: nat) returns (found: Option<Rec>)
      requires Valid() && Sized(dev.bytes[..]) && pos < MAX_LBA_NUM
      ensures found == Blocks(dev.bytes[..])(pos)
    {
      if Number(dev.bytes[pos * LBA_SIZE..pos * LBA_SIZE + 2]) != METAMAGIC {
        return None;
      }
      var ent := ReadMeta(dev.bytes[pos * LBA_SIZE..pos * LBA_SIZE + META_SZ]);
      var good := false;
      if pos + ent.Blks() <= MAX_LBA_NUM {
        good := CheckValue(pos, ent.valLen, ent.crc);
      }
      return Some(Rec(pos, ent, good));
    }

    /** The comparison of the checksums. */
    method CheckValue(pos: nat, len: nat, sum: nat) returns (good: bool)
      requires Valid() && Sized(dev.bytes[..]) && pos + NumBlks(len) <= MAX_LBA_NUM
      ensures good == (ValueCrc(dev.bytes[..], pos, len) == sum)
    {
      EnoughBlocks(len);
      var toCheck := crc.NewerCrc(dev.bytes[pos * LBA_SIZE + META_SZ..pos * LBA_SIZE + META_SZ + len]);
      good := toCheck == sum;
    }

    /** One turn of the loop of index_init, on what was read at `pos`. */
    method ScanBlock(pos: nat, found: Option<Rec>, ghost read: nat -> Option<Rec>, ghost t: Store)
      returns (next: nat)
      requires Valid() && pos < MAX_LBA_NUM && Positioned(read) && found == read(pos)
      requires Scanning(Model(), hash, read, pos, t)
      modifies this`indx, free
      ensures Valid() && next > pos && Scanning(Model(), hash, read, next, t)
    {
      if found.Some? {
        ghost var s1 := ScanRecord(Model(), hash, read, pos, found.value, t);
        var blks := InitCb(found.value);
        next := pos + blks;
      } else {
        ScanGap(Model(), hash, read, pos, t);
        next := pos + 1;
      }
    }

    /** index_init, after freelist_init. */
    method IndexInit()
      requires crc.Valid() && Sized(dev.bytes[..]) && free.list == Initial(MAX_LBA_NUM)
      requires AllSound(Visit(Blocks(dev.bytes[..]), 0))
      modifies this, free
      ensures Valid() && Conserved(Model())
      ensures Scans(Fresh(dev.bytes[..]), hash, Blocks(dev.bytes[..]), 0, Model())
    {
      indx, batch, numBlks, inFlight := seq(MAX_ENTRIES, _ => []), [], 0, false;
      ghost var bytes := dev.bytes[..];
      ghost var read := Blocks(bytes);
      BlocksPositioned(bytes, read);
      ghost var t := ScanStarts(bytes, hash, read);
      assert Model() == Fresh(bytes);
      var blksRead := 0;
      while blksRead < MAX_LBA_NUM
        invariant Valid() && Scanning(Model(), hash, read, blksRead, t)
      {
        var found := ReadBlock(blksRead);
        blksRead := ScanBlock(blksRead, found, read, t);
      }
      ScanEnds(Model(), hash, read, blksRead, t);
    }

    /** io_write_cb. */
    method IoWriteCb()
      requires Valid() && inFlight && Conserved(Model()) && Completable(Model(), hash, batch)
      modifies this, free
      ensures Valid() && Model() == Complete(old(Model()), hash) && Conserved(Model())
    {
      ghost var s := Model();
      CompleteConserves(s, hash);
      assert batch[0..] == batch;
      for i := 0 to |batch|
        invariant Valid() && batch == s.batch && inFlight
        invariant Canonical(free.list) && Balanced(Model(), batch[i..])
        invariant Completable(Model(), hash, batch[i..])
        invariant UpdateAll(Model(), hash, batch[i..]) == UpdateAll(s, hash, batch)
      {
        ghost var rest := batch[i..];
        assert rest[1..] == batch[i + 1..];
        UpdateBalanced(Model(), hash, rest);
        if Find(Model(), hash, batch[i].ent.key).Some? {
          DisplacedUsed(Model(), hash, batch[i].ent.key, rest);
        }
        UpdateIndex(batch[i].ent);
      }
      assert batch[|batch|..] == [];
      batch, numBlks, inFlight := [], 0, false;
    }
  }

  lemma VisitRecord(read: nat -> Option<Rec>, pos: nat, r: Rec)
    requires pos < MAX_LBA_NUM && read(pos) == Some(r) && Sound(Visit(read, pos), pos)
    ensures Visit(read, pos) == [r] + Visit(read, pos + r.ent.Blks())
    ensures Visit(read, pos)[1..] == Visit(read, pos + r.ent.Blks())
    ensures SoundRec(r) && Sound(Visit(read, pos + r.ent.Blks()), r.pos + r.ent.Blks())
  {
  }

  lemma {:induction false} VisitGap(read: nat -> Option<Rec>, pos: nat)
    requires Positioned(read) && pos < MAX_LBA_NUM && read(pos) == None && Sound(Visit(read, pos), pos)
    ensures Visit(read, pos) == Visit(read, pos + 1) && Sound(Visit(read, pos + 1), pos + 1)
  {
    VisitBeyond(read, pos + 1);
  }

  lemma {:induction false} VisitBeyond(read: nat -> Option<Rec>, pos: nat)
    requires Positioned(read)
    ensures Visit(read, pos) != [] ==> Visit(read, pos)[0].pos >= pos
    decreases MAX_LBA_NUM - pos
  {
    if pos < MAX_LBA_NUM && read(pos).None? {
      VisitBeyond(read, pos + 1);
    }
  }

  lemma ReplayRecord(s: Store, hash: Key -> nat, read: nat -> Option<Rec>, pos: nat, r: Rec, t: Store)
    requires pos < MAX_LBA_NUM && read(pos) == Some(r) && Scans(s, hash, read, pos, t)
    ensures Takable(s, hash, r) && Scans(Take(s, hash, r), hash, read, pos + r.ent.Blks(), t)
  {
    assert Visit(read, pos)[1..] == Visit(read, pos + r.ent.Blks());
  }

  lemma BlocksPositioned(dev: seq<byte>, read: nat -> Option<Rec>)
    requires Sized(dev) && read == Blocks(dev)
    ensures Positioned(read)
  {
  }

  /** The loop invariant of index_init: what is left of the scan still leads to `t`. */
  ghost predicate Scanning(s: Store, hash: Key -> nat, read: nat -> Option<Rec>, pos: nat, t: Store) {
    ScanInv(s, pos) && Sound(Visit(read, pos), pos) && Scans(s, hash, read, pos, t)
  }

  lemma ScanRecord(s: Store, hash: Key -> nat, read: nat -> Option<Rec>, pos: nat, r: Rec, t: Store)
    returns (s1: Store)
    requires pos < MAX_LBA_NUM && read(pos) == Some(r) && r.pos == pos && Scanning(s, hash, read, pos, t)
    ensures SoundRec(r) && Takable(s, hash, r) && s1 == Take(s, hash, r)
    ensures Scanning(s1, hash, read, pos + r.ent.Blks(), t)
  {
    VisitRecord(read, pos, r);
    TakeKeepsSpace(s, hash, r);
    ReplayRecord(s, hash, read, pos, r, t);
    s1 := Take(s, hash, r);
  }

  lemma ScanGap(s: Store, hash: Key -> nat, read: nat -> Option<Rec>, pos: nat, t: Store)
    requires Positioned(read) && pos < MAX_LBA_NUM && read(pos) == None && Scanning(s, hash, read, pos, t)
    ensures Scanning(s, hash, read, pos + 1, t)
  {
    VisitGap(read, pos);
    ScanInvLater(s, pos, pos + 1);
  }

  lemma ScanStarts(dev: seq<byte>, hash: Key -> nat, read: nat -> Option<Rec>) returns (t: Store)
    requires Positioned(read) && AllSound(Visit(read, 0))
    ensures Scanning(Fresh(dev), hash, read, 0, t) && Scans(Fresh(dev), hash, read, 0, t)
  {
    FreshScanInv(dev);
    VisitInOrder(read, 0, Visit(read, 0));
    ReplayKeepsSpace(Fresh(dev), hash, Visit(read, 0), 0);
    t := Replay(Fresh(dev), hash, Visit(read, 0));
  }

  lemma ScanEnds(s: Store, hash: Key -> nat, read: nat -> Option<Rec>, pos: nat, t: Store)
    requires Scanning(s, hash, read, pos, t) && pos >= MAX_LBA_NUM
    ensures s == t && Conserved(t)
  {
  }

  lemma AllocFits(list: seq<Extent>, lba: int, n: int)
    requires Canonical(list) && n > 0 && AllFree(list, lba, n)
    ensures list != [] && lba + n <= list[Holding(list, lba, 0)].End()
  {
    assert InRange(lba, lba, n);
    var j := HolderExists(list, lba);
    RangeInOne(list, lba, n, Holding(list, lba, 0));
  }

  lemma SliceOfSlice(s: seq<byte>, off: nat, part: seq<byte>, i: nat, j: nat)
    requires off + |part| <= |s| && part == s[off..off + |part|] && i <= j <= |part|
    ensures part[i..j] == s[off + i..off + j]
  {
    assert forall k | 0 <= k < j - i :: part[i..j][k] == s[off + i..off + j][k];
  }

  lemma {:induction false} BatchBlksAppend(batch: seq<Write>, w: Write)
    ensures BatchBlks(batch + [w]) == BatchBlks(batch) + w.ent.Blks()
    decreases |batch|
  {
    var all := batch + [w];
    if batch == [] {
      assert all[1..] == [];
    } else {
      assert all[1..] == batch[1..] + [w];
      BatchBlksAppend(batch[1..], w);
    }
  }

  lemma {:induction false} AssignBlks(batch: seq<Write>, lba: int)
    ensures BatchBlks(Assign(batch, lba)) == BatchBlks(batch)
    decreases |batch|
  {
    if batch != [] {
      var r := Assign(batch, lba);
      assert r[1..] == Assign(batch[1..], lba + batch[0].ent.Blks());
      AssignBlks(batch[1..], lba + batch[0].ent.Blks());
    }
  }
}
