/** index_init and init_cb of dp/core/blk_index.c: on start the whole device is scanned and the index and
    the free list are rebuilt from the records found.

    `RecoversBest` says what any scan ends with, for every key; `RecoversSpace` that the free list is
    exactly the complement of the live entries; `OrderRebuilt` that of a store filled by puts of different
    keys even the order in the chains is rebuilt. What a store with overwritten keys makes of a restart is
    the subject of `Restart`. */
module Recovery {
  import opened Common
  import opened Words
  import opened FreeLists
  import opened BlkIndex
  import opened KvStore
  import Crc32

  // ---------------------------------------------------------------------------------------------
  // Reading a record
  // ---------------------------------------------------------------------------------------------

  function Number(b: seq<byte>): nat {
    if b == [] then 0 else b[0] + 256 * Number(b[1..])
  }

  function Pow256(k: nat): nat {
    if k == 0 then 1 else 256 * Pow256(k - 1)
  }

  lemma {:induction false} NumberOfLittleEndian(n: nat, k: nat)
    requires n < Pow256(k)
    ensures Number(LittleEndian(n, k)) == n
    decreases k
  {
    if k > 0 {
      var b := LittleEndian(n, k);
      assert b[1..] == LittleEndian(n / 256, k - 1);
      NumberOfLittleEndian(n / 256, k - 1);
    }
  }

  /** The bytes before the terminator. */
  function CString(b: seq<byte>): Key {
    if b == [] || b[0] == 0 then [] else [b[0]] + CString(b[1..])
  }

  lemma {:induction false} CStringOfPadded(key: Key, pad: seq<byte>)
    requires 0 !in key && pad != [] && pad[0] == 0
    ensures CString(key + pad) == key
    decreases |key|
  {
    var all := key + pad;
    if key == [] {
      assert all == pad;
    } else {
      assert all[1..] == key[1..] + pad;
      CStringOfPadded(key[1..], pad);
    }
  }

  function Signed32(n: nat): int {
    if n < 0x8000_0000 then n else n - TWO32
  }

  /** struct index_ent from its first META_SZ bytes, given how strings and numbers are read. */
  function ReadFields(str: seq<byte> -> Key, num: seq<byte> -> nat, b: seq<byte>): IndexEnt
    requires |b| == META_SZ
  {
    IndexEnt(str(b[2..110]), Signed32(num(b[110..114])), num(b[114..122]), num(b[122..126]), num(b[126..128]))
  }

  function ReadMeta(b: seq<byte>): IndexEnt
    requires |b| == META_SZ
  {
    ReadFields(CString, Number, b)
  }

  /** The entries that their fields can hold. */
  predicate Storable(e: IndexEnt) {
    IsKey(e.key) && 0 <= e.lba < 0x8000_0000 && e.valLen < Pow256(8) && e.crc < Pow256(4) && e.version < Pow256(2)
  }

  lemma PowersOf256()
    ensures Pow256(2) == 65536 && Pow256(4) == TWO32
  {
    assert Pow256(1) == 256 && Pow256(3) == 16777216;
  }

  /** Where the fields of a record lie. */
  lemma Fields(b: seq<byte>, magic: seq<byte>, key: seq<byte>, lba: seq<byte>, len: seq<byte>,
               crc: seq<byte>, version: seq<byte>)
    requires b == magic + key + lba + len + crc + version
    requires |magic| == 2 && |key| == 108 && |lba| == 4 && |len| == 8 && |crc| == 4 && |version| == 2
    ensures |b| == META_SZ && b[..2] == magic && b[2..110] == key && b[110..114] == lba && b[114..122] == len
    ensures b[122..126] == crc && b[126..128] == version
  {
  }

  lemma FieldsRead(str: seq<byte> -> Key, num: seq<byte> -> nat, bytesOf: (nat, nat) -> seq<byte>, e: IndexEnt,
                   key: seq<byte>, b: seq<byte>)
    requires b == bytesOf(METAMAGIC, 2) + key + bytesOf(e.lba % TWO32, 4) + bytesOf(e.valLen, 8) + bytesOf(e.crc, 4)
                  + bytesOf(e.version, 2)
    requires |bytesOf(METAMAGIC, 2)| == 2 && |key| == MAX_KEY_LEN && str(key) == e.key
    requires 0 <= e.lba < 0x8000_0000 && |bytesOf(e.lba, 4)| == 4 && num(bytesOf(e.lba, 4)) == e.lba
    requires |bytesOf(e.valLen, 8)| == 8 && num(bytesOf(e.valLen, 8)) == e.valLen
    requires |bytesOf(e.crc, 4)| == 4 && num(bytesOf(e.crc, 4)) == e.crc
    requires |bytesOf(e.version, 2)| == 2 && num(bytesOf(e.version, 2)) == e.version
    ensures |b| == META_SZ && ReadFields(str, num, b) == e && b[..2] == bytesOf(METAMAGIC, 2)
  {
    Fields(b, bytesOf(METAMAGIC, 2), key, bytesOf(e.lba, 4), bytesOf(e.valLen, 8), bytesOf(e.crc, 4),
           bytesOf(e.version, 2));
  }

  lemma ReadNumber(n: nat, k: nat)
    requires n < Pow256(k)
    ensures |LittleEndian(n, k)| == k && Number(LittleEndian(n, k)) == n
  {
    NumberOfLittleEndian(n, k);
  }

  lemma ReadKey(key: Key) returns (b: seq<byte>)
    requires IsKey(key)
    ensures b == key + Zeros(MAX_KEY_LEN - |key|) && |b| == MAX_KEY_LEN && CString(b) == key
  {
    b := key + Zeros(MAX_KEY_LEN - |key|);
    CStringOfPadded(key, Zeros(MAX_KEY_LEN - |key|));
  }

  /** What new_index_ent and the flush put on the device, init_cb reads back. */
  lemma MetaRoundTrip(e: IndexEnt)
    requires Storable(e)
    ensures ReadMeta(Meta(e)) == e && Meta(e)[..2] == LittleEndian(METAMAGIC, 2)
  {
    PowersOf256();
    var key := ReadKey(e.key);
    ReadNumber(e.lba, 4);
    ReadNumber(e.valLen, 8);
    ReadNumber(e.crc, 4);
    ReadNumber(e.version, 2);
    FieldsRead(CString, Number, LittleEndian, e, key, Meta(e));
  }

  // ---------------------------------------------------------------------------------------------
  // The scan
  // ---------------------------------------------------------------------------------------------

  /** A record met by the scan: where, what it says, and whether its checksum is right. */
  datatype Rec = Rec(pos: nat, ent: IndexEnt, good: bool)

  predicate Sized(dev: seq<byte>) {
    |dev| == MAX_LBA_NUM * LBA_SIZE
  }

  predicate HasMagic(dev: seq<byte>, pos: nat)
    requires Sized(dev) && pos < MAX_LBA_NUM
  {
    Number(dev[pos * LBA_SIZE..pos * LBA_SIZE + 2]) == METAMAGIC
  }

  /** The record at a block; one that runs off the device has no checksum that could be right. */
  function RecAt(dev: seq<byte>, pos: nat): Rec
    requires Sized(dev) && pos < MAX_LBA_NUM
  {
    var off := pos * LBA_SIZE;
    var ent := ReadMeta(dev[off..off + META_SZ]);
    Rec(pos, ent, pos + ent.Blks() <= MAX_LBA_NUM && ValueCrc(dev, pos, ent.valLen) == ent.crc)
  }

  /** The checksum of the value of a record at `pos`. */
  function ValueCrc(dev: seq<byte>, pos: nat, len: nat): nat
    requires Sized(dev) && pos + NumBlks(len) <= MAX_LBA_NUM
  {
    EnoughBlocks(len);
    Crc32.Crc(dev[pos * LBA_SIZE + META_SZ..pos * LBA_SIZE + META_SZ + len])
  }

  /** What the scan reads at each block of a device: a record, or nothing it knows. */
  ghost function Blocks(dev: seq<byte>): nat -> Option<Rec>
    requires Sized(dev)
  {
    (pos: nat) => if pos < MAX_LBA_NUM && HasMagic(dev, pos) then Some(RecAt(dev, pos)) else None
  }

  /** A record read at a block is a record of that block. */
  ghost predicate Positioned(read: nat -> Option<Rec>) {
    forall pos :: read(pos).Some? ==> read(pos).value.pos == pos
  }

  /** The records the scan meets from block `pos` on, in order: it jumps over the blocks of every record
      and steps over every other block. */
  function Visit(read: nat -> Option<Rec>, pos: nat): seq<Rec>
    decreases MAX_LBA_NUM - pos
  {
    if pos >= MAX_LBA_NUM then []
    else if read(pos).Some? then [read(pos).value] + Visit(read, pos + read(pos).value.ent.Blks())
    else Visit(read, pos + 1)
  }

  /** A record that init_cb takes in. */
  predicate Wanted(s: Store, hash: Key -> nat, r: Rec)
    requires |s.buckets| == MAX_ENTRIES
  {
    var prior := Find(s, hash, r.ent.key);
    r.good && (prior.None? || prior.value.version < r.ent.version)
  }

  /** What update_index and alloc_block need. */
  ghost predicate Takable(s: Store, hash: Key -> nat, r: Rec) {
    && |s.buckets| == MAX_ENTRIES
    && (Wanted(s, hash, r) ==>
          && Updatable(s, hash, r.ent)
          && Update(s, hash, r.ent).free != []
          && AllFree(Update(s, hash, r.ent).free, r.ent.lba, r.ent.Blks()))
  }

  /** init_cb. */
  function Take(s: Store, hash: Key -> nat, r: Rec): Store
    requires Takable(s, hash, r)
  {
    if Wanted(s, hash, r) then
      var u := Update(s, hash, r.ent);
      u.(free := AllocBlock(u.free, r.ent.lba, r.ent.Blks()))
    else s
  }

  ghost predicate Replayable(s: Store, hash: Key -> nat, recs: seq<Rec>)
    decreases |recs|
  {
    recs != [] ==> Takable(s, hash, recs[0]) && Replayable(Take(s, hash, recs[0]), hash, recs[1..])
  }

  function Replay(s: Store, hash: Key -> nat, recs: seq<Rec>): Store
    requires Replayable(s, hash, recs)
    decreases |recs|
  {
    if recs == [] then s else Replay(Take(s, hash, recs[0]), hash, recs[1..])
  }

  // ---------------------------------------------------------------------------------------------
  // Space
  // ---------------------------------------------------------------------------------------------

  /** A record that can be scanned: it lies on the device and, if its checksum is right, says where it
      lies. */
  predicate SoundRec(r: Rec) {
    r.pos + r.ent.Blks() <= MAX_LBA_NUM && (r.good ==> r.ent.lba == r.pos)
  }

  /** The image is scanned in order, every record beyond the blocks of the one before. */
  ghost predicate Sound(recs: seq<Rec>, pos: int)
    decreases |recs|
  {
    recs != [] ==>
      SoundRec(recs[0]) && pos <= recs[0].pos && Sound(recs[1..], recs[0].pos + recs[0].ent.Blks())
  }

  /** What the scan keeps: every block accounted for once, and nothing taken from `pos` on. */
  ghost predicate ScanInv(s: Store, pos: int) {
    && Conserved(s) && !s.inFlight && s.batch == []
    && AllFree(s.free, pos, MAX_LBA_NUM - pos)
  }

  lemma UpdateAddsClaim(s: Store, hash: Key -> nat, e: IndexEnt, b: int)
    requires Canonical(s.free) && Updatable(s, hash, e) && Balanced(s, [])
    ensures Accounts(Update(s, hash, e), [], b) == Accounts(s, [], b) + Claims(Some(e), b)
    ensures Canonical(Update(s, hash, e).free)
    ensures Free(s.free, b) ==> Free(Update(s, hash, e).free, b)
  {
    var h := BucketOf(hash, e.key);
    var prior := Find(s, hash, e.key);
    UpdateHolders(s.buckets[h], e, b);
    AllHoldersUpdate(s.buckets, h, UpdateChain(s.buckets[h], e), b);
    if prior.Some? {
      DisplacedUsed(s, hash, e.key, []);
      FreeBlkGives(s.free, prior.value.lba, prior.value.Blks(), b);
      assert InRange(b, prior.value.lba, prior.value.Blks()) <==> prior.value.Has(b);
    }
  }

  /** There is always room for update_index to give blocks back: the record being read is above. */
  lemma UpdatableWhileScanning(s: Store, hash: Key -> nat, r: Rec)
    requires ScanInv(s, r.pos) && SoundRec(r)
    ensures Updatable(s, hash, r.ent)
  {
    var prior := Find(s, hash, r.ent.key);
    if prior.Some? {
      FoundOnDevice(s, hash, r.ent.key);
      assert InRange(prior.value.lba, prior.value.lba, prior.value.Blks());
      assert InRange(r.pos, r.pos, MAX_LBA_NUM - r.pos);
      if prior.value.lba >= r.pos {
        assert false;
      }
      RoomFromFree(s.free, prior.value.lba, r.pos);
    }
  }

  lemma TakeKeepsSpace(s: Store, hash: Key -> nat, r: Rec)
    requires ScanInv(s, r.pos) && SoundRec(r)
    ensures Takable(s, hash, r)
    ensures ScanInv(Take(s, hash, r), r.pos + r.ent.Blks())
  {
    UpdatableWhileScanning(s, hash, r);
    if Wanted(s, hash, r) {
      var u := Update(s, hash, r.ent);
      var n := r.ent.Blks();
      forall b | InRange(b, r.pos, MAX_LBA_NUM - r.pos)
        ensures Free(u.free, b)
      {
        UpdateAddsClaim(s, hash, r.ent, b);
      }
      UpdateAddsClaim(s, hash, r.ent, 0);
      assert AllFree(u.free, r.pos, n) by {
        assert forall b | InRange(b, r.pos, n) :: InRange(b, r.pos, MAX_LBA_NUM - r.pos);
      }
      AllocBlockTakes(u.free, r.pos, n, 0);
      var t := Take(s, hash, r);
      forall b
        ensures Accounts(t, [], b) == if InRange(b, 0, MAX_LBA_NUM) then 1 else 0
        ensures InRange(b, r.pos + n, MAX_LBA_NUM - (r.pos + n)) ==> Free(t.free, b)
      {
        UpdateAddsClaim(s, hash, r.ent, b);
        AllocBlockTakes(u.free, r.pos, n, b);
        assert Accounts(s, [], b) == if InRange(b, 0, MAX_LBA_NUM) then 1 else 0;
        assert InRange(b, r.pos, n) <==> r.ent.Has(b);
      }
    } else {
      ScanInvLater(s, r.pos, r.pos + r.ent.Blks());
    }
  }

  lemma ScanInvLater(s: Store, pos: int, later: int)
    requires ScanInv(s, pos) && pos <= later
    ensures ScanInv(s, later)
  {
    forall b | InRange(b, later, MAX_LBA_NUM - later)
      ensures Free(s.free, b)
    {
      assert InRange(b, pos, MAX_LBA_NUM - pos);
    }
  }

  lemma {:induction false} ReplayKeepsSpace(s: Store, hash: Key -> nat, recs: seq<Rec>, pos: int)
    requires ScanInv(s, pos) && Sound(recs, pos)
    ensures Replayable(s, hash, recs)
    ensures var t := Replay(s, hash, recs); Conserved(t) && !t.inFlight && t.batch == []
    decreases |recs|
  {
    if recs != [] {
      ScanInvLater(s, pos, recs[0].pos);
      TakeKeepsSpace(s, hash, recs[0]);
      ReplayKeepsSpace(Take(s, hash, recs[0]), hash, recs[1..], recs[0].pos + recs[0].ent.Blks());
    }
  }

  lemma FreshScanInv(dev: seq<byte>)
    ensures ScanInv(Fresh(dev), 0)
  {
    FreshConserved(dev);
    forall b | InRange(b, 0, MAX_LBA_NUM)
      ensures Free(Fresh(dev).free, b)
    {
      FreeOne(Extent(0, MAX_LBA_NUM), b);
    }
  }

  ghost predicate AllSound(recs: seq<Rec>) {
    forall i | 0 <= i < |recs| :: SoundRec(recs[i])
  }

  lemma SoundCons(r: Rec, rest: seq<Rec>, recs: seq<Rec>, pos: int)
    requires recs == [r] + rest && SoundRec(r) && pos <= r.pos && Sound(rest, r.pos + r.ent.Blks())
    ensures Sound(recs, pos)
  {
    assert recs[1..] == rest;
  }

  lemma AllSoundTail(r: Rec, rest: seq<Rec>, recs: seq<Rec>)
    requires recs == [r] + rest && AllSound(recs)
    ensures SoundRec(r) && AllSound(rest)
  {
    assert recs[0] == r;
    assert forall i | 0 <= i < |rest| :: rest[i] == recs[i + 1];
  }

  /** The visited records are in order without being told: only what each says of itself matters. */
  lemma {:induction false} VisitInOrder(read: nat -> Option<Rec>, pos: nat, recs: seq<Rec>)
    requires Positioned(read) && recs == Visit(read, pos) && AllSound(recs)
    ensures Sound(recs, pos)
    decreases MAX_LBA_NUM - pos
  {
    if pos < MAX_LBA_NUM {
      if read(pos).Some? {
        var r := read(pos).value;
        var rest := Visit(read, pos + r.ent.Blks());
        AllSoundTail(r, rest, recs);
        VisitInOrder(read, pos + r.ent.Blks(), rest);
        SoundCons(r, rest, recs, pos);
      } else {
        VisitInOrder(read, pos + 1, recs);
        SoundEarlier(recs, pos + 1, pos);
      }
    }
  }

  lemma SoundEarlier(recs: seq<Rec>, pos: int, earlier: int)
    requires Sound(recs, pos) && earlier <= pos
    ensures Sound(recs, earlier)
  {
  }

  /** The scan of any sound image runs through, and afterwards a block is free exactly when no entry of
      the index holds it, and never held twice. */
  lemma RecoversSpace(dev: seq<byte>, read: nat -> Option<Rec>, hash: Key -> nat, b: int)
    requires Positioned(read) && AllSound(Visit(read, 0))
    ensures Replayable(Fresh(dev), hash, Visit(read, 0))
    ensures var s := Replay(Fresh(dev), hash, Visit(read, 0));
      && Conserved(s)
      && AllHolders(s.buckets, b) <= 1
      && (Free(s.free, b) <==> 0 <= b < MAX_LBA_NUM && AllHolders(s.buckets, b) == 0)
  {
    var recs := Visit(read, 0);
    FreshScanInv(dev);
    VisitInOrder(read, 0, recs);
    ReplayKeepsSpace(Fresh(dev), hash, recs, 0);
    var s := Replay(Fresh(dev), hash, recs);
    assert Accounts(s, [], b) == if InRange(b, 0, MAX_LBA_NUM) then 1 else 0;
    assert BatchHolders([], b) == 0;
  }

  // ---------------------------------------------------------------------------------------------
  // Which record wins
  // ---------------------------------------------------------------------------------------------

  /** Record i is a good record of the key, no good record of the key has a higher version, and those
      met earlier have a lower one. */
  ghost predicate IsBest(recs: seq<Rec>, key: Key, i: nat) {
    && i < |recs| && Of(recs[i], key)
    && (forall j | 0 <= j < |recs| && Of(recs[j], key) :: recs[j].ent.version <= recs[i].ent.version)
    && (forall j | 0 <= j < i && Of(recs[j], key) :: recs[j].ent.version < recs[i].ent.version)
  }

  predicate Of(r: Rec, key: Key) {
    r.good && r.ent.key == key
  }

  /** The best record of a key so far, going through the records in order. */
  function Best(recs: seq<Rec>, key: Key, sofar: Option<IndexEnt>): Option<IndexEnt>
    decreases |recs|
  {
    if recs == [] then sofar
    else Best(recs[1..], key,
              if Of(recs[0], key) && (sofar.None? || sofar.value.version < recs[0].ent.version)
              then Some(recs[0].ent) else sofar)
  }

  /** No two of the keys begin alike and belong in the same bucket. */
  ghost predicate Distinctive(hash: Key -> nat, keys: iset<Key>) {
    forall a, b | a in keys && b in keys :: Clear(hash, a, b)
  }

  /** An entry under one of `keys`, in the bucket where it belongs. */
  ghost predicate DrawnEnt(hash: Key -> nat, keys: iset<Key>, h: nat, e: IndexEnt) {
    e.key in keys && BucketOf(hash, e.key) == h
  }

  /** Every indexed key is one of `keys`. */
  ghost predicate Drawn(s: Store, hash: Key -> nat, keys: iset<Key>) {
    && |s.buckets| == MAX_ENTRIES
    && (forall h | 0 <= h < MAX_ENTRIES :: PrefixFree(s.buckets[h]))
    && (forall h, i | 0 <= h < MAX_ENTRIES && 0 <= i < |s.buckets[h]| :: DrawnEnt(hash, keys, h, s.buckets[h][i]))
  }

  lemma DrawnUnambiguous(s: Store, hash: Key -> nat, keys: iset<Key>, key: Key)
    requires Drawn(s, hash, keys) && Distinctive(hash, keys) && key in keys
    ensures Unambiguous(s.buckets[BucketOf(hash, key)], key)
  {
    var h := BucketOf(hash, key);
    forall i | 0 <= i < |s.buckets[h]|
      ensures var k := s.buckets[h][i].key; k == key || (!(k <= key) && !(key <= k))
    {
      var e := s.buckets[h][i];
      assert DrawnEnt(hash, keys, h, e);
      assert Clear(hash, e.key, key) && Clear(hash, key, e.key);
    }
  }

  lemma TakeDrawn(s: Store, hash: Key -> nat, r: Rec, keys: iset<Key>)
    requires Drawn(s, hash, keys) && Distinctive(hash, keys) && (r.good ==> r.ent.key in keys) && Takable(s, hash, r)
    ensures Drawn(Take(s, hash, r), hash, keys)
  {
    if Wanted(s, hash, r) {
      var h := BucketOf(hash, r.ent.key);
      var chain := s.buckets[h];
      DrawnUnambiguous(s, hash, keys, r.ent.key);
      UpdatePrefixFree(chain, r.ent);
      forall i | 0 <= i < |UpdateChain(chain, r.ent)|
        ensures DrawnEnt(hash, keys, h, UpdateChain(chain, r.ent)[i])
      {
        UpdateChainKeys(chain, r.ent, i);
      }
    }
  }

  lemma TakeFinds(s: Store, hash: Key -> nat, r: Rec, keys: iset<Key>, k: Key)
    requires Drawn(s, hash, keys) && Distinctive(hash, keys) && (r.good ==> r.ent.key in keys) && Takable(s, hash, r)
    requires forall a | a in keys :: Clear(hash, k, a)
    ensures |Take(s, hash, r).buckets| == MAX_ENTRIES
    ensures Find(Take(s, hash, r), hash, k) ==
              if Of(r, k) && (Find(s, hash, k).None? || Find(s, hash, k).value.version < r.ent.version)
              then Some(r.ent) else Find(s, hash, k)
  {
    if Wanted(s, hash, r) {
      DrawnUnambiguous(s, hash, keys, r.ent.key);
      assert Clear(hash, k, r.ent.key);
      if BucketOf(hash, k) == BucketOf(hash, r.ent.key) {
        UpdateThenLookup(s.buckets[BucketOf(hash, k)], r.ent, k);
      }
    }
  }

  ghost predicate GoodKeysIn(recs: seq<Rec>, keys: iset<Key>) {
    forall i | 0 <= i < |recs| && recs[i].good :: recs[i].ent.key in keys
  }

  lemma {:induction false} ReplayFinds(s: Store, hash: Key -> nat, recs: seq<Rec>, keys: iset<Key>, k: Key)
    requires Drawn(s, hash, keys) && Distinctive(hash, keys) && GoodKeysIn(recs, keys) && Replayable(s, hash, recs)
    requires forall a | a in keys :: Clear(hash, k, a)
    ensures Drawn(Replay(s, hash, recs), hash, keys)
    ensures Find(Replay(s, hash, recs), hash, k) == Best(recs, k, Find(s, hash, k))
    decreases |recs|
  {
    if recs != [] {
      TakeDrawn(s, hash, recs[0], keys);
      TakeFinds(s, hash, recs[0], keys, k);
      var rest := recs[1..];
      assert forall i | 0 <= i < |rest| :: rest[i] == recs[i + 1];
      ReplayFinds(Take(s, hash, recs[0]), hash, rest, keys, k);
    }
  }

  lemma {:induction false} ReplayDrawn(s: Store, hash: Key -> nat, recs: seq<Rec>, keys: iset<Key>)
    requires Drawn(s, hash, keys) && Distinctive(hash, keys) && GoodKeysIn(recs, keys) && Replayable(s, hash, recs)
    ensures Drawn(Replay(s, hash, recs), hash, keys) && Replay(s, hash, recs).dev == s.dev
    decreases |recs|
  {
    if recs != [] {
      TakeDrawn(s, hash, recs[0], keys);
      var rest := recs[1..];
      assert forall i | 0 <= i < |rest| :: rest[i] == recs[i + 1];
      ReplayDrawn(Take(s, hash, recs[0]), hash, rest, keys);
    }
  }

  /** The record that wins is the best one, and there is one exactly when there is a good record. */
  lemma {:induction false} BestIsBest(recs: seq<Rec>, key: Key, done: nat, sofar: Option<IndexEnt>)
    requires done <= |recs|
    requires sofar.None? ==> forall j | 0 <= j < done :: !Of(recs[j], key)
    requires sofar.Some? ==> exists i | 0 <= i < done :: recs[i].ent == sofar.value && IsBest(recs[..done], key, i)
    ensures var r := Best(recs[done..], key, sofar);
      && (r.None? <==> forall j | 0 <= j < |recs| :: !Of(recs[j], key))
      && (r.Some? ==> exists i | 0 <= i < |recs| :: recs[i].ent == r.value && IsBest(recs, key, i))
    decreases |recs| - done
  {
    if done == |recs| {
      assert recs[done..] == [] && recs[..done] == recs;
    } else {
      var rest, r := recs[done..], recs[done];
      assert rest[1..] == recs[done + 1..];
      var next := if Of(r, key) && (sofar.None? || sofar.value.version < r.ent.version) then Some(r.ent) else sofar;
      BestStep(recs, key, done, sofar, next);
      BestIsBest(recs, key, done + 1, next);
    }
  }

  lemma BestStep(recs: seq<Rec>, key: Key, done: nat, sofar: Option<IndexEnt>, next: Option<IndexEnt>)
    requires done < |recs|
    requires sofar.None? ==> forall j | 0 <= j < done :: !Of(recs[j], key)
    requires sofar.Some? ==> exists i | 0 <= i < done :: recs[i].ent == sofar.value && IsBest(recs[..done], key, i)
    requires next == if Of(recs[done], key) && (sofar.None? || sofar.value.version < recs[done].ent.version)
                     then Some(recs[done].ent) else sofar
    ensures next.None? ==> forall j | 0 <= j < done + 1 :: !Of(recs[j], key)
    ensures next.Some? ==> exists i | 0 <= i < done + 1 :: recs[i].ent == next.value && IsBest(recs[..done + 1], key, i)
  {
    var before, now := recs[..done], recs[..done + 1];
    assert now == before + [recs[done]];
    if next == sofar && sofar.Some? {
      var i :| 0 <= i < done && recs[i].ent == sofar.value && IsBest(before, key, i);
      assert IsBest(now, key, i);
    } else if next.Some? {
      if sofar.Some? {
        var i :| 0 <= i < done && recs[i].ent == sofar.value && IsBest(before, key, i);
      }
      assert forall j | 0 <= j < done && Of(now[j], key) :: before[j] == now[j];
      assert IsBest(now, key, done);
    }
  }

  lemma BestUnique(recs: seq<Rec>, key: Key, i: nat, j: nat)
    requires IsBest(recs, key, i) && IsBest(recs, key, j)
    ensures i == j
  {
  }

  lemma FreshDrawn(dev: seq<byte>, hash: Key -> nat, keys: iset<Key>, k: Key)
    ensures Drawn(Fresh(dev), hash, keys) && Find(Fresh(dev), hash, k) == None
  {
  }

  /** After the scan of a sound image whose good records have keys that do not begin alike, a key is found
      exactly when the image has a good record of it, and what is found is the entry of the good record
      with the highest version, the earliest of those. */
  lemma RecoversBest(dev: seq<byte>, read: nat -> Option<Rec>, hash: Key -> nat, keys: iset<Key>, k: Key, i: nat)
    requires Positioned(read) && AllSound(Visit(read, 0))
    requires Distinctive(hash, keys) && GoodKeysIn(Visit(read, 0), keys) && (forall a | a in keys :: Clear(hash, k, a))
    ensures Replayable(Fresh(dev), hash, Visit(read, 0))
    ensures var recs := Visit(read, 0); var s := Replay(Fresh(dev), hash, recs);
      && Drawn(s, hash, keys)
      && (Find(s, hash, k).None? <==> forall j | 0 <= j < |recs| :: !Of(recs[j], k))
      && (IsBest(recs, k, i) ==> Find(s, hash, k) == Some(recs[i].ent))
      && (Find(s, hash, k).Some? ==>
            exists j | 0 <= j < |recs| :: recs[j].ent == Find(s, hash, k).value && IsBest(recs, k, j))
  {
    var recs := Visit(read, 0);
    RecoversSpace(dev, read, hash, 0);
    FreshDrawn(dev, hash, keys, k);
    ReplayFinds(Fresh(dev), hash, recs, keys, k);
    assert recs[0..] == recs;
    BestIsBest(recs, k, 0, None);
    if IsBest(recs, k, i) {
      var s := Replay(Fresh(dev), hash, recs);
      assert Find(s, hash, k).Some?;
      var j :| 0 <= j < |recs| && recs[j].ent == Find(s, hash, k).value && IsBest(recs, k, j);
      BestUnique(recs, k, i, j);
    }
  }

  // ---------------------------------------------------------------------------------------------
  // A store filled by puts of different keys
  // ---------------------------------------------------------------------------------------------

  /** The first `used` blocks of the device are taken and the rest was never written. */
  ghost predicate FilledTo(s: Store, used: nat) {
    && used <= MAX_LBA_NUM && Sized(s.dev)
    && s.free == (if used < MAX_LBA_NUM then [Extent(used, MAX_LBA_NUM - used)] else [])
    && (forall i | used * LBA_SIZE <= i < |s.dev| :: s.dev[i] == 0)
  }

  function TotalBlks(puts: seq<KeyVal>): nat {
    if puts == [] then 0 else NumBlks(|puts[0].val|) + TotalBlks(puts[1..])
  }

  predicate PlainPut(p: KeyVal) {
    IsKey(p.key) && FillsBlocks(|p.val|) && p.val != []
  }

  predicate Apart(a: Key, b: Key) {
    !(a <= b) && !(b <= a)
  }

  /** Values that can be stored, under keys that do not begin alike. */
  ghost predicate PlainPuts(puts: seq<KeyVal>) {
    && (forall i | 0 <= i < |puts| :: PlainPut(puts[i]))
    && (forall i, j | 0 <= i < j < |puts| :: Apart(puts[i].key, puts[j].key))
  }

  /** No key of the index begins like one of those to come. */
  ghost predicate ClearOf(s: Store, key: Key)
    requires |s.buckets| == MAX_ENTRIES
  {
    forall h, i | 0 <= h < MAX_ENTRIES && 0 <= i < |s.buckets[h]| :: Apart(s.buckets[h][i].key, key)
  }

  ghost predicate ClearOfAll(s: Store, puts: seq<KeyVal>)
    requires |s.buckets| == MAX_ENTRIES
  {
    forall i | 0 <= i < |puts| :: ClearOf(s, puts[i].key)
  }

  lemma {:induction false} NotFound(chain: seq<IndexEnt>, key: Key)
    requires forall i | 0 <= i < |chain| :: Apart(chain[i].key, key)
    ensures Lookup(chain, key) == None
    decreases |chain|
  {
    if chain != [] {
      NotFound(chain[1..], key);
    }
  }

  lemma NextFit(s: Store, used: nat, n: nat)
    requires FilledTo(s, used) && n > 0 && used + n <= MAX_LBA_NUM
    ensures FirstFit(s.free, n, 0) < |s.free| && GetBlk(s.free, n).0 == used
    ensures s.free != [] && AllocBlock(s.free, used, n) == GetBlk(s.free, n).1
    ensures GetBlk(s.free, n).1 ==
              if used + n < MAX_LBA_NUM then [Extent(used + n, MAX_LBA_NUM - (used + n))] else []
  {
    assert |s.free| == 1 && s.free[0] == Extent(used, MAX_LBA_NUM - used);
    assert FirstFit(s.free, n, 0) == 0;
    assert Holding(s.free, used, 0) == 0;
  }

  lemma NextAdmissible(s: Store, hash: Key -> nat, p: KeyVal, used: nat)
    requires Settled(s) && FilledTo(s, used) && PlainPut(p) && ClearOf(s, p.key)
    requires used + NumBlks(|p.val|) <= MAX_LBA_NUM
    ensures Admissible(s, hash, p.key, p.val) && Find(s, hash, p.key) == None
  {
    NextFit(s, used, NumBlks(|p.val|));
    NotFound(s.buckets[BucketOf(hash, p.key)], p.key);
  }

  /** The entry of such a put. */
  function NextEnt(p: KeyVal, used: nat): IndexEnt {
    IndexEnt(p.key, used, |p.val|, Crc32.Crc(p.val), 1)
  }

  lemma FirstVersion()
    ensures NextVersion(None) == 1
  {
  }

  lemma NextPlaced(s: Store, hash: Key -> nat, p: KeyVal, used: nat)
    requires |s.buckets| == MAX_ENTRIES && Find(s, hash, p.key) == None && GetBlk(s.free, NumBlks(|p.val|)).0 == used
    ensures Placed(s, hash, p.key, p.val) == Write(NextEnt(p, used), p.val)
  {
    FirstVersion();
  }

  /** What the put does. */
  lemma NextPut(s: Store, hash: Key -> nat, p: KeyVal, used: nat)
    requires Settled(s) && FilledTo(s, used) && PlainPut(p) && ClearOf(s, p.key)
    requires used + NumBlks(|p.val|) <= MAX_LBA_NUM
    ensures Admissible(s, hash, p.key, p.val)
    ensures var n, w, h := NumBlks(|p.val|), Write(NextEnt(p, used), p.val), BucketOf(hash, p.key);
      && |Image(w)| == n * LBA_SIZE && used * LBA_SIZE + |Image(w)| <= |s.dev|
      && PutNow(s, hash, p.key, p.val) ==
           s.(free := GetBlk(s.free, n).1, dev := WriteAt(s.dev, used * LBA_SIZE, Image(w)),
              buckets := s.buckets[h := UpdateChain(s.buckets[h], w.ent)])
  {
    NextAdmissible(s, hash, p, used);
    NextFit(s, used, NumBlks(|p.val|));
    NextPlaced(s, hash, p, used);
    PutFits(s, hash, p.key, p.val);
  }

  lemma NextFilled(s: Store, hash: Key -> nat, p: KeyVal, used: nat)
    requires Settled(s) && FilledTo(s, used) && PlainPut(p) && ClearOf(s, p.key)
    requires used + NumBlks(|p.val|) <= MAX_LBA_NUM
    ensures Admissible(s, hash, p.key, p.val)
    ensures FilledTo(PutNow(s, hash, p.key, p.val), used + NumBlks(|p.val|))
  {
    NextPut(s, hash, p, used);
    NextFit(s, used, NumBlks(|p.val|));
  }

  lemma NextClear(s: Store, hash: Key -> nat, p: KeyVal, used: nat, key: Key)
    requires Settled(s) && FilledTo(s, used) && PlainPut(p) && ClearOf(s, p.key)
    requires used + NumBlks(|p.val|) <= MAX_LBA_NUM && ClearOf(s, key) && Apart(p.key, key)
    ensures Admissible(s, hash, p.key, p.val)
    ensures |PutNow(s, hash, p.key, p.val).buckets| == MAX_ENTRIES && ClearOf(PutNow(s, hash, p.key, p.val), key)
  {
    NextPut(s, hash, p, used);
    var h, e := BucketOf(hash, p.key), NextEnt(p, used);
    var chain := s.buckets[h];
    forall i | 0 <= i < |UpdateChain(chain, e)|
      ensures Apart(UpdateChain(chain, e)[i].key, key)
    {
      UpdateChainKeys(chain, e, i);
    }
  }

  /** The parts of a record where it was written. */
  lemma ImageParts(dev: seq<byte>, off: nat, w: Write)
    requires |w.ent.key| <= MAX_KEY_LEN && off + |Image(w)| <= |dev| && dev[off..off + |Image(w)|] == Image(w)
    ensures off + META_SZ + |w.val| <= |dev|
    ensures dev[off..off + META_SZ] == Meta(w.ent) && dev[off..off + 2] == Meta(w.ent)[..2]
    ensures dev[off + META_SZ..off + META_SZ + |w.val|] == w.val
  {
    var image := Image(w);
    ImageValue(w);
    Within(dev, off, image, 0, META_SZ);
    Within(dev, off, image, 0, 2);
    Within(dev, off, image, META_SZ, META_SZ + |w.val|);
    assert image[0..META_SZ] == Meta(w.ent);
    assert image[0..2] == Meta(w.ent)[..2];
  }

  lemma Within(dev: seq<byte>, off: nat, image: seq<byte>, i: nat, j: nat)
    requires off + |image| <= |dev| && dev[off..off + |image|] == image && i <= j <= |image|
    ensures dev[off + i..off + j] == image[i..j]
  {
    forall k | 0 <= k < j - i
      ensures dev[off + i..off + j][k] == image[i..j][k]
    {
      assert dev[off..off + |image|][i + k] == dev[off + i + k];
    }
  }

  lemma MagicRead(dev: seq<byte>, pos: nat, magic: seq<byte>)
    requires Sized(dev) && pos < MAX_LBA_NUM
    requires dev[pos * LBA_SIZE..pos * LBA_SIZE + 2] == magic && Number(magic) == METAMAGIC
    ensures HasMagic(dev, pos)
  {
  }

  lemma ValueRead(dev: seq<byte>, pos: nat, val: seq<byte>)
    requires Sized(dev) && pos + NumBlks(|val|) <= MAX_LBA_NUM && pos * LBA_SIZE + META_SZ + |val| <= |dev|
    requires dev[pos * LBA_SIZE + META_SZ..pos * LBA_SIZE + META_SZ + |val|] == val
    ensures ValueCrc(dev, pos, |val|) == Crc32.Crc(val)
  {
  }

  lemma RecordRead(dev: seq<byte>, pos: nat, meta: seq<byte>, ent: IndexEnt)
    requires Sized(dev) && pos + ent.Blks() <= MAX_LBA_NUM
    requires dev[pos * LBA_SIZE..pos * LBA_SIZE + META_SZ] == meta && |meta| == META_SZ && ReadMeta(meta) == ent
    requires ValueCrc(dev, pos, ent.valLen) == ent.crc
    ensures RecAt(dev, pos) == Rec(pos, ent, true)
  {
  }

  lemma RecordAt(dev: seq<byte>, pos: nat, meta: seq<byte>, ent: IndexEnt, val: seq<byte>)
    requires Sized(dev) && pos + ent.Blks() <= MAX_LBA_NUM && pos * LBA_SIZE + META_SZ + |val| <= |dev|
    requires dev[pos * LBA_SIZE..pos * LBA_SIZE + META_SZ] == meta && |meta| == META_SZ && ReadMeta(meta) == ent
    requires dev[pos * LBA_SIZE..pos * LBA_SIZE + 2] == meta[..2] && Number(meta[..2]) == METAMAGIC
    requires dev[pos * LBA_SIZE + META_SZ..pos * LBA_SIZE + META_SZ + |val|] == val
    requires ent.valLen == |val| && ent.crc == Crc32.Crc(val)
    ensures Blocks(dev)(pos) == Some(Rec(pos, ent, true))
  {
    MagicRead(dev, pos, meta[..2]);
    ValueRead(dev, pos, val);
    RecordRead(dev, pos, meta, ent);
  }

  /** A record is read back where it was written. */
  lemma BlockIsRecord(dev: seq<byte>, w: Write, n: nat)
    requires Sized(dev) && Storable(w.ent) && w.ent.valLen == |w.val| && w.ent.crc == Crc32.Crc(w.val)
    requires n == w.ent.Blks() && w.ent.lba + n <= MAX_LBA_NUM && |Image(w)| == n * LBA_SIZE
    requires dev[w.ent.lba * LBA_SIZE..(w.ent.lba + n) * LBA_SIZE] == Image(w)
    ensures Blocks(dev)(w.ent.lba) == Some(Rec(w.ent.lba, w.ent, true))
  {
    ImageParts(dev, w.ent.lba * LBA_SIZE, w);
    MetaRoundTrip(w.ent);
    MagicNumber();
    RecordAt(dev, w.ent.lba, Meta(w.ent), w.ent, w.val);
  }

  lemma MagicNumber()
    ensures Number(LittleEndian(METAMAGIC, 2)) == METAMAGIC
  {
    PowersOf256();
    NumberOfLittleEndian(METAMAGIC, 2);
  }


  /** Nothing is found in what was never written. */
  lemma {:induction false} NothingFrom(dev: seq<byte>, pos: nat)
    requires Sized(dev) && forall i | pos * LBA_SIZE <= i < |dev| :: dev[i] == 0
    ensures Visit(Blocks(dev), pos) == []
    decreases MAX_LBA_NUM - pos
  {
    if pos < MAX_LBA_NUM {
      NoMagicInZeros(dev, pos);
      NothingFrom(dev, pos + 1);
    }
  }

  lemma NoMagicInZeros(dev: seq<byte>, pos: nat)
    requires Sized(dev) && pos < MAX_LBA_NUM && forall i | pos * LBA_SIZE <= i < |dev| :: dev[i] == 0
    ensures Blocks(dev)(pos) == None
  {
    var two := dev[pos * LBA_SIZE..pos * LBA_SIZE + 2];
    assert two == [0, 0];
    assert two[1..] == [0] && [0][1..] == [];
    assert Number([0]) == 0;
  }

  /** The scan does with the record of a put what the put did. */
  lemma TakeNext(s: Store, hash: Key -> nat, p: KeyVal, used: nat, dev: seq<byte>)
    requires Settled(s) && FilledTo(s, used) && PlainPut(p) && ClearOf(s, p.key)
    requires used + NumBlks(|p.val|) <= MAX_LBA_NUM
    ensures var r := Rec(used, NextEnt(p, used), true);
      && Admissible(s, hash, p.key, p.val) && Takable(s.(dev := dev), hash, r)
      && Take(s.(dev := dev), hash, r) == PutNow(s, hash, p.key, p.val).(dev := dev)
  {
    var r, n := Rec(used, NextEnt(p, used), true), NumBlks(|p.val|);
    NextPut(s, hash, p, used);
    NextFit(s, used, n);
    NextAdmissible(s, hash, p, used);
    forall k | InRange(k, used, n)
      ensures Free(s.free, k)
    {
      FreeOne(Extent(used, MAX_LBA_NUM - used), k);
    }
  }

  lemma PlainTail(puts: seq<KeyVal>)
    requires PlainPuts(puts) && puts != []
    ensures PlainPut(puts[0]) && PlainPuts(puts[1..])
    ensures forall i | 0 <= i < |puts[1..]| :: Apart(puts[0].key, puts[1..][i].key)
  {
    assert PlainPut(puts[0]);
    assert forall i | 0 <= i < |puts[1..]| :: puts[1..][i] == puts[i + 1];
  }

  /** A scan by `read` from block `pos` takes `s` to `t`. */
  ghost predicate Scans(s: Store, hash: Key -> nat, read: nat -> Option<Rec>, pos: nat, t: Store) {
    Replayable(s, hash, Visit(read, pos)) && Replay(s, hash, Visit(read, pos)) == t
  }

  lemma ScansStep(s: Store, hash: Key -> nat, read: nat -> Option<Rec>, pos: nat, r: Rec, s1: Store, later: nat,
                  t: Store)
    requires pos < MAX_LBA_NUM && read(pos) == Some(r) && Takable(s, hash, r) && Take(s, hash, r) == s1
    requires later == pos + r.ent.Blks() && Scans(s1, hash, read, later, t)
    ensures Scans(s, hash, read, pos, t)
  {
    var rest := Visit(read, later);
    var recs := Visit(read, pos);
    assert recs == [r] + rest;
    assert recs[1..] == rest;
  }

  /** `t` is on the device as it was in `s` up to `used`, and a scan from there gets from `s` to `t`. */
  ghost predicate Follows(s: Store, hash: Key -> nat, used: nat, t: Store) {
    && used <= MAX_LBA_NUM && Sized(s.dev) && Sized(t.dev)
    && t.dev[..used * LBA_SIZE] == s.dev[..used * LBA_SIZE]
    && Scans(s.(dev := t.dev), hash, Blocks(t.dev), used, t)
  }

  lemma ScansNext(s: Store, hash: Key -> nat, p: KeyVal, used: nat, read: nat -> Option<Rec>, r: Rec, s1: Store,
                  later: nat, t: Store)
    requires Settled(s) && FilledTo(s, used) && PlainPut(p) && ClearOf(s, p.key)
    requires later == used + NumBlks(|p.val|) <= MAX_LBA_NUM && Admissible(s, hash, p.key, p.val)
    requires r == Rec(used, NextEnt(p, used), true) && read(used) == Some(r)
    requires s1 == PutNow(s, hash, p.key, p.val) && Scans(s1.(dev := t.dev), hash, read, later, t)
    ensures Scans(s.(dev := t.dev), hash, read, used, t)
  {
    TakeNext(s, hash, p, used, t.dev);
    ScansStep(s.(dev := t.dev), hash, read, used, r, s1.(dev := t.dev), later, t);
  }

  lemma FollowsStep(s: Store, hash: Key -> nat, p: KeyVal, used: nat, s1: Store, later: nat, t: Store)
    requires Settled(s) && FilledTo(s, used) && PlainPut(p) && ClearOf(s, p.key)
    requires later == used + NumBlks(|p.val|) <= MAX_LBA_NUM && Admissible(s, hash, p.key, p.val)
    requires s1 == PutNow(s, hash, p.key, p.val) && Follows(s1, hash, later, t)
    ensures Follows(s, hash, used, t)
  {
    NextOnDevice(s, hash, p, used, t.dev);
    ScansNext(s, hash, p, used, Blocks(t.dev), Rec(used, NextEnt(p, used), true), s1, later, t);
  }

  lemma PutAllStep(s: Store, hash: Key -> nat, puts: seq<KeyVal>, rest: seq<KeyVal>, s1: Store)
    requires Settled(s) && puts != [] && rest == puts[1..] && Admissible(s, hash, puts[0].key, puts[0].val)
    requires s1 == PutNow(s, hash, puts[0].key, puts[0].val) && Settled(s1) && AllAdmissible(s1, hash, rest)
    ensures AllAdmissible(s, hash, puts) && PutAll(s, hash, puts) == PutAll(s1, hash, rest)
  {
  }

  lemma NextReady(s: Store, hash: Key -> nat, puts: seq<KeyVal>, rest: seq<KeyVal>, used: nat, later: nat)
    returns (s1: Store)
    requires Settled(s) && FilledTo(s, used) && puts != [] && PlainPuts(puts) && ClearOfAll(s, puts)
    requires used + TotalBlks(puts) <= MAX_LBA_NUM
    requires rest == puts[1..] && later == used + NumBlks(|puts[0].val|)
    ensures PlainPut(puts[0]) && ClearOf(s, puts[0].key) && Admissible(s, hash, puts[0].key, puts[0].val)
    ensures s1 == PutNow(s, hash, puts[0].key, puts[0].val)
    ensures Settled(s1) && FilledTo(s1, later) && PlainPuts(rest) && ClearOfAll(s1, rest)
    ensures later + TotalBlks(rest) <= MAX_LBA_NUM
  {
    var p := puts[0];
    PlainTail(puts);
    assert ClearOf(s, p.key);
    NextFilled(s, hash, p, used);
    PutNowSettled(s, hash, p.key, p.val);
    s1 := PutNow(s, hash, p.key, p.val);
    forall i | 0 <= i < |rest|
      ensures ClearOf(s1, rest[i].key)
    {
      assert rest[i] == puts[i + 1];
      NextClear(s, hash, p, used, rest[i].key);
    }
  }

  /** The scan, started behind the blocks in use on the device as it is in the end, takes the store from
      where it was to where it is. */
  lemma {:induction false} ScanFollowsPuts(s: Store, hash: Key -> nat, puts: seq<KeyVal>, used: nat)
    requires Settled(s) && FilledTo(s, used) && PlainPuts(puts) && ClearOfAll(s, puts)
    requires used + TotalBlks(puts) <= MAX_LBA_NUM
    ensures AllAdmissible(s, hash, puts) && Follows(s, hash, used, PutAll(s, hash, puts))
    decreases |puts|
  {
    if puts == [] {
      FollowsNothing(s, hash, used);
    } else {
      var rest, later := puts[1..], used + NumBlks(|puts[0].val|);
      var s1 := NextReady(s, hash, puts, rest, used, later);
      ScanFollowsPuts(s1, hash, rest, later);
      FollowsPut(s, hash, puts, rest, used, s1, later);
    }
  }

  lemma FollowsPut(s: Store, hash: Key -> nat, puts: seq<KeyVal>, rest: seq<KeyVal>, used: nat, s1: Store,
                   later: nat)
    requires puts != [] && rest == puts[1..] && Settled(s) && FilledTo(s, used)
    requires PlainPut(puts[0]) && ClearOf(s, puts[0].key) && Admissible(s, hash, puts[0].key, puts[0].val)
    requires s1 == PutNow(s, hash, puts[0].key, puts[0].val)
    requires later == used + NumBlks(|puts[0].val|) <= MAX_LBA_NUM
    requires Settled(s1) && AllAdmissible(s1, hash, rest) && Follows(s1, hash, later, PutAll(s1, hash, rest))
    ensures AllAdmissible(s, hash, puts) && Follows(s, hash, used, PutAll(s, hash, puts))
  {
    PutAllStep(s, hash, puts, rest, s1);
    FollowsStep(s, hash, puts[0], used, s1, later, PutAll(s1, hash, rest));
  }

  lemma FollowsNothing(s: Store, hash: Key -> nat, used: nat)
    requires FilledTo(s, used)
    ensures Follows(s, hash, used, s)
  {
    NothingFrom(s.dev, used);
    assert s.(dev := s.dev) == s;
  }

  /** The record of a put is still there in the end, and so is everything before it. */
  lemma NextOnDevice(s: Store, hash: Key -> nat, p: KeyVal, used: nat, dev: seq<byte>)
    requires Settled(s) && FilledTo(s, used) && PlainPut(p) && ClearOf(s, p.key) && Sized(dev)
    requires used + NumBlks(|p.val|) <= MAX_LBA_NUM && Admissible(s, hash, p.key, p.val)
    requires var s1, later := PutNow(s, hash, p.key, p.val), used + NumBlks(|p.val|);
      Sized(s1.dev) && dev[..later * LBA_SIZE] == s1.dev[..later * LBA_SIZE]
    ensures dev[..used * LBA_SIZE] == s.dev[..used * LBA_SIZE]
    ensures Blocks(dev)(used) == Some(Rec(used, NextEnt(p, used), true))
  {
    var w, n := Write(NextEnt(p, used), p.val), NumBlks(|p.val|);
    NextPut(s, hash, p, used);
    WrittenStays(s.dev, used * LBA_SIZE, Image(w), dev);
    NextStorable(p, used);
    BlockIsRecord(dev, w, n);
  }

  lemma WrittenStays(before: seq<byte>, off: nat, image: seq<byte>, dev: seq<byte>)
    requires off + |image| <= |before| == |dev|
    requires dev[..off + |image|] == WriteAt(before, off, image)[..off + |image|]
    ensures dev[..off] == before[..off] && dev[off..off + |image|] == image
  {
    var r := WriteAt(before, off, image);
    assert forall i | 0 <= i < off + |image| :: dev[i] == dev[..off + |image|][i] && r[i] == r[..off + |image|][i];
  }

  lemma NextStorable(p: KeyVal, used: nat)
    requires PlainPut(p) && used + NumBlks(|p.val|) <= MAX_LBA_NUM
    ensures Storable(NextEnt(p, used))
  {
    Crc32.CrcIsWord(p.val);
    EnoughBlocks(|p.val|);
    PowersOf256();
    assert Pow256(5) == 256 * TWO32 && Pow256(8) >= Pow256(5);
  }

  /** A new device, and one completed put for each of some keys that do not begin alike: the scan at the next start
      rebuilds the free list and every chain, entry by entry in the order it had. */
  lemma OrderRebuilt(dev: seq<byte>, hash: Key -> nat, puts: seq<KeyVal>)
    requires Sized(dev) && (forall i | 0 <= i < |dev| :: dev[i] == 0)
    requires PlainPuts(puts) && TotalBlks(puts) <= MAX_LBA_NUM
    ensures Settled(Fresh(dev)) && AllAdmissible(Fresh(dev), hash, puts)
    ensures var t := PutAll(Fresh(dev), hash, puts);
      Sized(t.dev) && Scans(Fresh(t.dev), hash, Blocks(t.dev), 0, t)
  {
    FreshConserved(dev);
    ScanFollowsPuts(Fresh(dev), hash, puts, 0);
    var t := PutAll(Fresh(dev), hash, puts);
    assert Fresh(dev).(dev := t.dev) == Fresh(t.dev);
  }
}
