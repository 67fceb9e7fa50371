/** What a restart makes of a store that has been in use: puts overwrite each other, blocks are freed and taken
    again, and old records stay on the device until something is written over them.

    `Laid` is how the entries lie on the device among what was left behind; first fit keeps it, because it takes
    from the start of an extent. `CrashLosesNothing` says that then the scan rebuilds everything, `DurableMap`
    that over any run of puts and restarts a key reads as the last value written. `RecoversExactly` says for which
    workloads that is so, with `WrapLoses` and `MarkLoses` for those for which it is not. */
module Restart {
  import opened Common
  import opened Words
  import opened FreeLists
  import opened BlkIndex
  import opened KvStore
  import opened Recovery
  import Crc32
  import LinearMaps

  // ---------------------------------------------------------------------------------------------
  // How entries lie on a device
  // ---------------------------------------------------------------------------------------------

  /** Block b belongs to one of the entries. */
  ghost predicate Covered(ents: iset<IndexEnt>, b: int) {
    exists e | e in ents :: e.Has(b)
  }

  predicate Overlap(e: IndexEnt, f: IndexEnt) {
    e.lba < f.lba + f.Blks() && f.lba < e.lba + e.Blks()
  }

  /** The record of an entry can be read where the entry says. */
  predicate Recorded(read: nat -> Option<Rec>, e: IndexEnt) {
    OnDevice(e) && read(e.lba) == Some(Rec(e.lba, e, true))
  }

  /** A record left behind at block b: it names its block and lies on the device, outside the entries. */
  ghost predicate Leftover(ents: iset<IndexEnt>, r: Rec, b: nat) {
    && r.ent.lba == b && b + r.ent.Blks() <= MAX_LBA_NUM
    && (forall c | InRange(c, b, r.ent.Blks()) :: !Covered(ents, c))
  }

  /** The entries are on the device, apart from each other, and between them is nothing that looks like a
      record but records left behind. */
  ghost predicate Laid(read: nat -> Option<Rec>, ents: iset<IndexEnt>) {
    && Positioned(read)
    && (forall e | e in ents :: Recorded(read, e))
    && (forall e, f | e in ents && f in ents :: Overlap(e, f) ==> e == f)
    && (forall b: nat | b < MAX_LBA_NUM && !Covered(ents, b) ::
          read(b).Some? ==> Leftover(ents, read(b).value, b))
  }

  // ---------------------------------------------------------------------------------------------
  // The scan
  // ---------------------------------------------------------------------------------------------

  /** A record that is one of the entries, or was left behind. */
  ghost predicate Seen(read: nat -> Option<Rec>, ents: iset<IndexEnt>, r: Rec) {
    && r.pos < MAX_LBA_NUM && read(r.pos) == Some(r)
    && ((r.ent in ents && r == Rec(r.pos, r.ent, true) && r.ent.lba == r.pos) || !Covered(ents, r.pos))
  }

  /** Block `pos` is not within an entry. */
  ghost predicate Boundary(ents: iset<IndexEnt>, pos: int) {
    forall e | e in ents :: !(e.lba < pos < e.lba + e.Blks())
  }

  lemma BoundaryAfterEntry(ents: iset<IndexEnt>, e: IndexEnt)
    requires e in ents && (forall f, g | f in ents && g in ents :: Overlap(f, g) ==> f == g)
    ensures Boundary(ents, e.lba + e.Blks())
  {
    forall f | f in ents
      ensures !(f.lba < e.lba + e.Blks() < f.lba + f.Blks())
    {
      if f.lba < e.lba + e.Blks() < f.lba + f.Blks() {
        assert Overlap(e, f);
      }
    }
  }

  lemma BoundaryAfterGap(ents: iset<IndexEnt>, b: int)
    requires !Covered(ents, b)
    ensures Boundary(ents, b + 1)
  {
    forall f | f in ents
      ensures !(f.lba < b + 1 < f.lba + f.Blks())
    {
      assert !f.Has(b);
    }
  }

  /** Where the scan goes on from block `pos`. */
  function Next(read: nat -> Option<Rec>, pos: nat): nat {
    pos + if read(pos).Some? then read(pos).value.ent.Blks() else 1
  }

  /** On an entry it meets that entry and goes on behind it. */
  lemma NextAtEntry(read: nat -> Option<Rec>, ents: iset<IndexEnt>, pos: nat, e: IndexEnt)
    requires Laid(read, ents) && e in ents && e.lba == pos
    ensures read(pos) == Some(Rec(pos, e, true)) && Seen(read, ents, read(pos).value)
    ensures Boundary(ents, Next(read, pos))
    ensures forall f | f in ents && pos <= f.lba < Next(read, pos) :: f == e
  {
    assert Recorded(read, e);
    BoundaryAfterEntry(ents, e);
    forall f | f in ents && pos <= f.lba < Next(read, pos)
      ensures f == e
    {
      assert Overlap(e, f);
    }
  }

  /** Elsewhere it meets at most a record left behind, and passes over no entry. */
  lemma NextAtGap(read: nat -> Option<Rec>, ents: iset<IndexEnt>, pos: nat)
    requires Laid(read, ents) && pos < MAX_LBA_NUM && !Covered(ents, pos)
    ensures read(pos).Some? ==> Seen(read, ents, read(pos).value)
    ensures Boundary(ents, Next(read, pos))
    ensures forall f | f in ents && pos <= f.lba :: Next(read, pos) <= f.lba
  {
    var next := Next(read, pos);
    if read(pos).Some? {
      assert Leftover(ents, read(pos).value, pos);
    }
    assert forall c | InRange(c, pos, next - pos) :: !Covered(ents, c);
    assert InRange(next - 1, pos, next - pos);
    BoundaryAfterGap(ents, next - 1);
    forall f | f in ents && pos <= f.lba
      ensures next <= f.lba
    {
      assert f.Has(f.lba);
      assert InRange(f.lba, pos, next - pos) ==> !Covered(ents, f.lba);
    }
  }

  /** From a boundary the scan meets all entries from there on, and nothing else but what was left behind. */
  lemma {:induction false} VisitLaid(read: nat -> Option<Rec>, ents: iset<IndexEnt>, pos: nat, recs: seq<Rec>)
    requires Laid(read, ents) && Boundary(ents, pos) && recs == Visit(read, pos)
    ensures forall i | 0 <= i < |recs| :: Seen(read, ents, recs[i])
    ensures forall e | e in ents && pos <= e.lba :: Rec(e.lba, e, true) in recs
    decreases MAX_LBA_NUM - pos
  {
    if pos >= MAX_LBA_NUM {
      assert forall e | e in ents :: Recorded(read, e) && e.lba < pos;
    } else {
      var next := Next(read, pos);
      var rest := Visit(read, next);
      VisitStep(read, pos, next, rest, recs);
      if Covered(ents, pos) {
        var e :| e in ents && e.Has(pos);
        NextAtEntry(read, ents, pos, e);
      } else {
        NextAtGap(read, ents, pos);
      }
      VisitLaid(read, ents, next, rest);
      SeenMore(read, ents, pos, next, rest, recs);
    }
  }

  lemma SeenMore(read: nat -> Option<Rec>, ents: iset<IndexEnt>, pos: nat, next: nat, rest: seq<Rec>, recs: seq<Rec>)
    requires recs == (if read(pos).Some? then [read(pos).value] else []) + rest
    requires read(pos).Some? ==> Seen(read, ents, read(pos).value)
    requires forall i | 0 <= i < |rest| :: Seen(read, ents, rest[i])
    requires forall e | e in ents && next <= e.lba :: Rec(e.lba, e, true) in rest
    requires forall e | e in ents && pos <= e.lba < next :: read(pos) == Some(Rec(e.lba, e, true))
    ensures forall i | 0 <= i < |recs| :: Seen(read, ents, recs[i])
    ensures forall e | e in ents && pos <= e.lba :: Rec(e.lba, e, true) in recs
  {
    assert read(pos).Some? ==> recs[0] == read(pos).value;
  }

  lemma VisitStep(read: nat -> Option<Rec>, pos: nat, next: nat, rest: seq<Rec>, recs: seq<Rec>)
    requires pos < MAX_LBA_NUM && next == Next(read, pos)
    requires rest == Visit(read, next) && recs == Visit(read, pos)
    ensures recs == (if read(pos).Some? then [read(pos).value] else []) + rest
  {
  }

  // ---------------------------------------------------------------------------------------------
  // What the scan ends with
  // ---------------------------------------------------------------------------------------------

  lemma SeenSound(read: nat -> Option<Rec>, ents: iset<IndexEnt>, r: Rec)
    requires Laid(read, ents) && Seen(read, ents, r)
    ensures SoundRec(r)
  {
    if Covered(ents, r.pos) {
      assert Recorded(read, r.ent);
    } else {
      assert Leftover(ents, r, r.pos);
    }
  }

  /** The scan of a device on which the entries are laid runs through. */
  lemma LaidScans(read: nat -> Option<Rec>, ents: iset<IndexEnt>)
    requires Laid(read, ents)
    ensures forall i | 0 <= i < |Visit(read, 0)| :: Seen(read, ents, Visit(read, 0)[i])
    ensures forall e | e in ents :: Rec(e.lba, e, true) in Visit(read, 0)
    ensures AllSound(Visit(read, 0))
  {
    var recs := Visit(read, 0);
    assert Boundary(ents, 0) by {
      assert forall e | e in ents :: Recorded(read, e);
    }
    VisitLaid(read, ents, 0, recs);
    forall i | 0 <= i < |recs|
      ensures SoundRec(recs[i])
    {
      SeenSound(read, ents, recs[i]);
    }
    forall e | e in ents
      ensures Rec(e.lba, e, true) in recs
    {
      assert Recorded(read, e);
    }
  }

  /** No other record of its key has as high a version. */
  ghost predicate Tops(read: nat -> Option<Rec>, ents: iset<IndexEnt>, e: IndexEnt) {
    forall r | Seen(read, ents, r) && r.ent.key == e.key :: r.ent == e || r.ent.version < e.version
  }

  ghost predicate KeysSeen(read: nat -> Option<Rec>, ents: iset<IndexEnt>, keys: iset<Key>) {
    forall r | Seen(read, ents, r) :: r.ent.key in keys
  }

  lemma {:induction false} FirstAt(recs: seq<Rec>, r: Rec) returns (i: nat)
    requires r in recs
    ensures i < |recs| && recs[i] == r && forall j | 0 <= j < i :: recs[j] != r
    decreases |recs|
  {
    i := 0;
    if recs[0] != r {
      assert recs == [recs[0]] + recs[1..];
      var j := FirstAt(recs[1..], r);
      assert forall k | 0 < k < j + 1 :: recs[k] == recs[1..][k - 1];
      i := j + 1;
    }
  }

  lemma TopIsBest(read: nat -> Option<Rec>, ents: iset<IndexEnt>, e: IndexEnt, recs: seq<Rec>) returns (i: nat)
    requires Laid(read, ents) && e in ents && Tops(read, ents, e) && Rec(e.lba, e, true) in recs
    requires forall j | 0 <= j < |recs| :: Seen(read, ents, recs[j])
    ensures IsBest(recs, e.key, i) && recs[i].ent == e
  {
    assert Recorded(read, e) && e.Has(e.lba);
    i := FirstAt(recs, Rec(e.lba, e, true));
    forall j | 0 <= j < i && Of(recs[j], e.key)
      ensures recs[j].ent.version < e.version
    {
      if recs[j].ent == e {
        OneRecord(read, ents, e, recs[j]);
      }
    }
  }

  lemma OneRecord(read: nat -> Option<Rec>, ents: iset<IndexEnt>, e: IndexEnt, r: Rec)
    requires Laid(read, ents) && e in ents && Seen(read, ents, r) && r.ent == e
    ensures r == Rec(e.lba, e, true)
  {
    if !Covered(ents, r.pos) {
      assert Leftover(ents, r, r.pos);
      assert e.Has(e.lba);
      assert false;
    }
  }

  /** After the scan an entry is found under its key if it tops the records of the key. */
  lemma ScanFinds(dev: seq<byte>, read: nat -> Option<Rec>, ents: iset<IndexEnt>, hash: Key -> nat,
                  keys: iset<Key>, e: IndexEnt)
    requires Laid(read, ents) && KeysSeen(read, ents, keys) && Distinctive(hash, keys)
    requires e in ents && Tops(read, ents, e)
    ensures Replayable(Fresh(dev), hash, Visit(read, 0))
    ensures var r := Replay(Fresh(dev), hash, Visit(read, 0));
      Drawn(r, hash, keys) && Find(r, hash, e.key) == Some(e)
  {
    var recs := Visit(read, 0);
    LaidScans(read, ents);
    KeysOfSeen(read, ents, keys, recs);
    var i := TopIsBest(read, ents, e, recs);
    assert recs[i].ent.key in keys;
    RecoversBest(dev, read, hash, keys, e.key, i);
  }

  lemma KeysOfSeen(read: nat -> Option<Rec>, ents: iset<IndexEnt>, keys: iset<Key>, recs: seq<Rec>)
    requires KeysSeen(read, ents, keys) && forall i | 0 <= i < |recs| :: Seen(read, ents, recs[i])
    ensures GoodKeysIn(recs, keys) && forall i | 0 <= i < |recs| :: recs[i].ent.key in keys
  {
  }

  // ---------------------------------------------------------------------------------------------
  // A store and its device
  // ---------------------------------------------------------------------------------------------

  /** The entries of the index. */
  ghost function Entries(s: Store, hash: Key -> nat): iset<IndexEnt>
    requires |s.buckets| == MAX_ENTRIES
  {
    iset e: IndexEnt | e in s.buckets[BucketOf(hash, e.key)]
  }

  /** Every entry is in the bucket of its key. */
  ghost predicate Filed(s: Store, hash: Key -> nat)
    requires |s.buckets| == MAX_ENTRIES
  {
    forall h, i | 0 <= h < MAX_ENTRIES && 0 <= i < |s.buckets[h]| :: BucketOf(hash, s.buckets[h][i].key) == h
  }

  lemma HeldIsCovered(s: Store, hash: Key -> nat, b: int)
    requires |s.buckets| == MAX_ENTRIES && Filed(s, hash)
    ensures AllHolders(s.buckets, b) >= 1 <==> Covered(Entries(s, hash), b)
  {
    if Covered(Entries(s, hash), b) {
      var e :| e in Entries(s, hash) && e.Has(b);
      var h := BucketOf(hash, e.key);
      var i :| 0 <= i < |s.buckets[h]| && s.buckets[h][i] == e;
      HoldersOf(s.buckets[h], i, b);
      AllHoldersAtLeast(s.buckets, h, b);
    }
    if AllHolders(s.buckets, b) >= 1 {
      var h, i := HolderAmong(s.buckets, b);
      assert s.buckets[h][i] in Entries(s, hash);
    }
  }

  /** Between batches a block of the device is free exactly when no entry has it. */
  lemma FreeExactly(s: Store, hash: Key -> nat, b: int)
    requires Quiet(s) && Filed(s, hash)
    ensures Free(s.free, b) <==> 0 <= b < MAX_LBA_NUM && !Covered(Entries(s, hash), b)
  {
    HeldIsCovered(s, hash, b);
    assert Accounts(s, [], b) == if InRange(b, 0, MAX_LBA_NUM) then 1 else 0;
    assert BatchHolders([], b) == 0;
  }

  /** The blocks of the entry behind its first do not look like records. */
  ghost predicate Unmarked(read: nat -> Option<Rec>, e: IndexEnt) {
    forall b: nat | e.lba < b < e.lba + e.Blks() :: read(b) == None
  }

  /** An entry that survives; those under the keys of `later` may be overwritten. */
  ghost predicate Kept(read: nat -> Option<Rec>, later: iset<Key>, e: IndexEnt) {
    e.valLen > 0 && 1 <= e.version <= 65535 && (e.key in later ==> Unmarked(read, e))
  }

  /** The index has the entry of this very key. */
  ghost predicate Stored(s: Store, hash: Key -> nat, k: Key)
    requires |s.buckets| == MAX_ENTRIES
  {
    Find(s, hash, k).Some? && Find(s, hash, k).value.key == k
  }

  /** The index has a newer version of the entry. */
  ghost predicate Outdated(s: Store, hash: Key -> nat, e: IndexEnt)
    requires |s.buckets| == MAX_ENTRIES
  {
    e.valLen > 0 && Stored(s, hash, e.key) && e.version < Find(s, hash, e.key).value.version
  }

  /** The store, between batches, with a device that `read` reads: a restart will find everything. */
  ghost predicate DurableBy(s: Store, hash: Key -> nat, read: nat -> Option<Rec>, later: iset<Key>) {
    && Settled(s) && Filed(s, hash) && Laid(read, Entries(s, hash))
    && (forall e | e in Entries(s, hash) :: Kept(read, later, e))
    && (forall b: nat | b < MAX_LBA_NUM && !Covered(Entries(s, hash), b) ::
          read(b).Some? ==> Outdated(s, hash, read(b).value.ent))
  }

  ghost predicate Durable(s: Store, hash: Key -> nat, later: iset<Key>) {
    Sized(s.dev) && DurableBy(s, hash, Blocks(s.dev), later)
  }

  // ---------------------------------------------------------------------------------------------
  // A restart
  // ---------------------------------------------------------------------------------------------

  ghost function StoredKeys(s: Store, hash: Key -> nat): iset<Key>
    requires |s.buckets| == MAX_ENTRIES
  {
    iset k: Key | Stored(s, hash, k)
  }

  lemma EntryFound(s: Store, hash: Key -> nat, e: IndexEnt)
    requires Settled(s) && e in Entries(s, hash)
    ensures Find(s, hash, e.key) == Some(e) && Stored(s, hash, e.key)
  {
    MemberFound(s.buckets[BucketOf(hash, e.key)], e);
  }

  lemma FoundEntry(s: Store, hash: Key -> nat, k: Key)
    requires |s.buckets| == MAX_ENTRIES && Stored(s, hash, k)
    ensures Find(s, hash, k).value in Entries(s, hash)
  {
    LookupMember(s.buckets[BucketOf(hash, k)], k);
  }

  lemma StoredDistinctive(s: Store, hash: Key -> nat)
    requires Settled(s)
    ensures Distinctive(hash, StoredKeys(s, hash))
  {
    forall a, b | a in StoredKeys(s, hash) && b in StoredKeys(s, hash)
      ensures Clear(hash, a, b)
    {
      var h := BucketOf(hash, a);
      if BucketOf(hash, b) == h {
        FoundEntry(s, hash, a);
        FoundEntry(s, hash, b);
        var i :| 0 <= i < |s.buckets[h]| && s.buckets[h][i] == Find(s, hash, a).value;
        var j :| 0 <= j < |s.buckets[h]| && s.buckets[h][j] == Find(s, hash, b).value;
        assert PrefixFree(s.buckets[h]);
      }
    }
  }

  /** The scan meets only records of stored keys, and each stored entry tops those of its key. */
  lemma DurableSeen(s: Store, hash: Key -> nat, read: nat -> Option<Rec>, later: iset<Key>, r: Rec)
    requires DurableBy(s, hash, read, later) && Seen(read, Entries(s, hash), r)
    ensures r.ent.valLen > 0 && Stored(s, hash, r.ent.key)
    ensures r.ent == Find(s, hash, r.ent.key).value || r.ent.version < Find(s, hash, r.ent.key).value.version
  {
    if Covered(Entries(s, hash), r.pos) {
      EntryFound(s, hash, r.ent);
      assert Kept(read, later, r.ent);
    } else {
      assert Outdated(s, hash, r.ent);
    }
  }

  lemma DurableTops(s: Store, hash: Key -> nat, read: nat -> Option<Rec>, later: iset<Key>)
    requires DurableBy(s, hash, read, later)
    ensures KeysSeen(read, Entries(s, hash), StoredKeys(s, hash))
    ensures forall e | e in Entries(s, hash) :: Tops(read, Entries(s, hash), e)
  {
    forall r | Seen(read, Entries(s, hash), r)
      ensures r.ent.key in StoredKeys(s, hash)
    {
      DurableSeen(s, hash, read, later, r);
    }
    forall e, r | e in Entries(s, hash) && Seen(read, Entries(s, hash), r) && r.ent.key == e.key
      ensures r.ent == e || r.ent.version < e.version
    {
      DurableSeen(s, hash, read, later, r);
      EntryFound(s, hash, e);
    }
  }

  /** What index_init makes of the device. */
  ghost predicate Scannable(dev: seq<byte>, hash: Key -> nat, read: nat -> Option<Rec>) {
    Replayable(Fresh(dev), hash, Visit(read, 0))
  }

  ghost function Scanned(dev: seq<byte>, hash: Key -> nat, read: nat -> Option<Rec>): Store
    requires Scannable(dev, hash, read)
  {
    Replay(Fresh(dev), hash, Visit(read, 0))
  }

  lemma ScanSettles(s: Store, hash: Key -> nat, read: nat -> Option<Rec>, ents: iset<IndexEnt>, keys: iset<Key>)
    requires Settled(s) && Laid(read, ents) && KeysSeen(read, ents, keys) && Distinctive(hash, keys)
    ensures Scannable(s.dev, hash, read)
    ensures var r := Scanned(s.dev, hash, read); Settled(r) && Drawn(r, hash, keys) && r.dev == s.dev
  {
    var recs := Visit(read, 0);
    LaidScans(read, ents);
    VisitInOrder(read, 0, recs);
    FreshScanInv(s.dev);
    ReplayKeepsSpace(Fresh(s.dev), hash, recs, 0);
    KeysOfSeen(read, ents, keys, recs);
    FreshDrawn(s.dev, hash, keys, []);
    ReplayDrawn(Fresh(s.dev), hash, recs, keys);
  }

  lemma RestartEntry(s: Store, hash: Key -> nat, read: nat -> Option<Rec>, later: iset<Key>, e: IndexEnt, r: Store)
    requires DurableBy(s, hash, read, later) && e in Entries(s, hash)
    requires Scannable(s.dev, hash, read) && r == Scanned(s.dev, hash, read) && |r.buckets| == MAX_ENTRIES
    ensures Find(r, hash, e.key) == Some(e) && e in Entries(r, hash)
  {
    DurableTops(s, hash, read, later);
    StoredDistinctive(s, hash);
    ScanFinds(s.dev, read, Entries(s, hash), hash, StoredKeys(s, hash), e);
    FoundEntry(r, hash, e.key);
  }

  lemma RestartNoMore(s: Store, hash: Key -> nat, read: nat -> Option<Rec>, later: iset<Key>, e: IndexEnt, r: Store)
    requires DurableBy(s, hash, read, later)
    requires Scannable(s.dev, hash, read) && r == Scanned(s.dev, hash, read) && Settled(r)
    requires Drawn(r, hash, StoredKeys(s, hash)) && e in Entries(r, hash)
    ensures e in Entries(s, hash)
  {
    var h := BucketOf(hash, e.key);
    var i :| 0 <= i < |r.buckets[h]| && r.buckets[h][i] == e;
    assert DrawnEnt(hash, StoredKeys(s, hash), h, e);
    FoundEntry(s, hash, e.key);
    RestartEntry(s, hash, read, later, Find(s, hash, e.key).value, r);
    EntryFound(r, hash, e);
  }

  lemma DrawnFiled(s: Store, hash: Key -> nat, keys: iset<Key>)
    requires Drawn(s, hash, keys)
    ensures Filed(s, hash)
  {
    forall h, i | 0 <= h < MAX_ENTRIES && 0 <= i < |s.buckets[h]|
      ensures BucketOf(hash, s.buckets[h][i].key) == h
    {
      assert DrawnEnt(hash, keys, h, s.buckets[h][i]);
    }
  }

  /** Stores with the same entries have the same free list. */
  lemma SameFree(s: Store, r: Store, hash: Key -> nat)
    requires Quiet(s) && Quiet(r) && Filed(s, hash) && Filed(r, hash) && Entries(r, hash) == Entries(s, hash)
    ensures r.free == s.free
  {
    forall b
      ensures Free(r.free, b) <==> Free(s.free, b)
    {
      FreeExactly(s, hash, b);
      FreeExactly(r, hash, b);
    }
    CanonicalUnique(r.free, s.free);
  }

  /** A restart rebuilds the store: the same entries in every bucket and the same free list, and it is fit for
      the next restart. */
  lemma RestartRebuilds(s: Store, hash: Key -> nat, read: nat -> Option<Rec>, later: iset<Key>) returns (r: Store)
    requires DurableBy(s, hash, read, later)
    ensures Scannable(s.dev, hash, read) && r == Scanned(s.dev, hash, read)
    ensures DurableBy(r, hash, read, later)
    ensures Entries(r, hash) == Entries(s, hash) && r.free == s.free && r.dev == s.dev
    ensures forall i | 0 <= i < |Visit(read, 0)| :: Visit(read, 0)[i].ent.valLen > 0
  {
    var ents, keys := Entries(s, hash), StoredKeys(s, hash);
    DurableTops(s, hash, read, later);
    StoredDistinctive(s, hash);
    ScanSettles(s, hash, read, ents, keys);
    r := Scanned(s.dev, hash, read);
    DrawnFiled(r, hash, keys);
    forall e
      ensures e in Entries(r, hash) <==> e in ents
    {
      if e in ents {
        RestartEntry(s, hash, read, later, e, r);
      } else if e in Entries(r, hash) {
        RestartNoMore(s, hash, read, later, e, r);
      }
    }
    SameFree(s, r, hash);
    DurableAgain(s, hash, read, later, r);
    LaidScans(read, ents);
    forall i | 0 <= i < |Visit(read, 0)|
      ensures Visit(read, 0)[i].ent.valLen > 0
    {
      DurableSeen(s, hash, read, later, Visit(read, 0)[i]);
    }
  }

  lemma SameFound(s: Store, r: Store, hash: Key -> nat, k: Key)
    requires Settled(s) && Settled(r) && Entries(r, hash) == Entries(s, hash) && Stored(s, hash, k)
    ensures Find(r, hash, k) == Find(s, hash, k)
  {
    FoundEntry(s, hash, k);
    EntryFound(r, hash, Find(s, hash, k).value);
  }

  lemma DurableAgain(s: Store, hash: Key -> nat, read: nat -> Option<Rec>, later: iset<Key>, r: Store)
    requires DurableBy(s, hash, read, later) && Settled(r) && Filed(r, hash) && Entries(r, hash) == Entries(s, hash)
    ensures DurableBy(r, hash, read, later)
  {
    forall b: nat | b < MAX_LBA_NUM && !Covered(Entries(r, hash), b) && read(b).Some?
      ensures Outdated(r, hash, read(b).value.ent)
    {
      assert Outdated(s, hash, read(b).value.ent);
      SameFound(s, r, hash, read(b).value.ent.key);
    }
  }

  // ---------------------------------------------------------------------------------------------
  // What a device write does to the blocks
  // ---------------------------------------------------------------------------------------------

  /** What is read at a block lies on the device and apart from a range. */
  predicate SpanClear(read: nat -> Option<Rec>, b: nat, lba: int, n: int) {
    && b < MAX_LBA_NUM && (b < lba || lba + n <= b)
    && (read(b).Some? ==>
          var end := b + read(b).value.ent.Blks();
          end <= MAX_LBA_NUM && (end <= lba || lba + n <= b))
  }

  /** Outside of a range the same is read. */
  ghost predicate SameOutside(read: nat -> Option<Rec>, read1: nat -> Option<Rec>, lba: int, n: int) {
    forall b: nat | SpanClear(read, b, lba, n) :: read1(b) == read(b)
  }

  lemma SubSlice(dev: seq<byte>, dev1: seq<byte>, x: nat, y: nat, a: nat, b: nat)
    requires x <= a <= b <= y <= |dev| == |dev1| && dev[x..y] == dev1[x..y]
    ensures dev[a..b] == dev1[a..b]
  {
    forall i | a <= i < b
      ensures dev[i] == dev1[i]
    {
      assert dev[x..y][i - x] == dev1[x..y][i - x];
    }
  }

  lemma SameCrc(dev: seq<byte>, dev1: seq<byte>, b: nat, len: nat, off: nat)
    requires Sized(dev) && Sized(dev1) && b + NumBlks(len) <= MAX_LBA_NUM
    requires off == b * LBA_SIZE + META_SZ && off + len <= |dev| && dev[off..off + len] == dev1[off..off + len]
    ensures ValueCrc(dev1, b, len) == ValueCrc(dev, b, len)
  {
    CrcOfSlice(dev, b, len, dev[off..off + len]);
    CrcOfSlice(dev1, b, len, dev[off..off + len]);
  }

  lemma ValueWithin(b: nat, n: nat, len: nat) returns (off: nat)
    requires NumBlks(len) <= n && b + n <= MAX_LBA_NUM
    ensures off == b * LBA_SIZE + META_SZ && off + len <= (b + n) * LBA_SIZE <= MAX_LBA_NUM * LBA_SIZE
  {
    EnoughBlocks(len);
    off := b * LBA_SIZE + META_SZ;
  }

  lemma CrcOfSlice(dev: seq<byte>, b: nat, len: nat, val: seq<byte>)
    requires Sized(dev) && b + NumBlks(len) <= MAX_LBA_NUM && b * LBA_SIZE + META_SZ + len <= |dev|
    requires dev[b * LBA_SIZE + META_SZ..b * LBA_SIZE + META_SZ + len] == val
    ensures ValueCrc(dev, b, len) == Crc32.Crc(val)
  {
  }

  /** The record of a block depends on the blocks it says it has. */
  lemma BlockSame(dev: seq<byte>, dev1: seq<byte>, b: nat, n: nat)
    requires Sized(dev) && Sized(dev1) && n >= 1 && b + n <= MAX_LBA_NUM
    requires dev[b * LBA_SIZE..(b + n) * LBA_SIZE] == dev1[b * LBA_SIZE..(b + n) * LBA_SIZE]
    requires Blocks(dev)(b).Some? ==> Blocks(dev)(b).value.ent.Blks() == n
    ensures Blocks(dev1)(b) == Blocks(dev)(b)
  {
    var off, end := b * LBA_SIZE, (b + n) * LBA_SIZE;
    SubSlice(dev, dev1, off, end, off, off + 2);
    SubSlice(dev, dev1, off, end, off, off + META_SZ);
    if HasMagic(dev, b) {
      RecordSame(dev, dev1, b, n, dev[off..off + META_SZ]);
    }
  }

  lemma RecordSame(dev: seq<byte>, dev1: seq<byte>, b: nat, n: nat, meta: seq<byte>)
    requires Sized(dev) && Sized(dev1) && n >= 1 && b + n <= MAX_LBA_NUM
    requires dev[b * LBA_SIZE..(b + n) * LBA_SIZE] == dev1[b * LBA_SIZE..(b + n) * LBA_SIZE]
    requires |meta| == META_SZ && dev[b * LBA_SIZE..b * LBA_SIZE + META_SZ] == meta
    requires dev1[b * LBA_SIZE..b * LBA_SIZE + META_SZ] == meta && ReadMeta(meta).Blks() == n
    ensures RecAt(dev1, b) == RecAt(dev, b)
  {
    var len := ReadMeta(meta).valLen;
    var at := ValueWithin(b, n, len);
    SubSlice(dev, dev1, b * LBA_SIZE, (b + n) * LBA_SIZE, at, at + len);
    SameCrc(dev, dev1, b, len, at);
  }

  lemma BlocksOfWrite(dev: seq<byte>, off: nat, image: seq<byte>, lba: nat, n: nat, b: nat)
    requires Sized(dev) && off == lba * LBA_SIZE && |image| == n * LBA_SIZE && lba + n <= MAX_LBA_NUM
    requires SpanClear(Blocks(dev), b, lba, n)
    ensures Blocks(WriteAt(dev, off, image))(b) == Blocks(dev)(b)
  {
    var m := if Blocks(dev)(b).Some? then Blocks(dev)(b).value.ent.Blks() else 1;
    var dev1 := WriteAt(dev, off, image);
    WriteAtElsewhere(dev, off, image, b * LBA_SIZE, (b + m) * LBA_SIZE);
    BlockSame(dev, dev1, b, m);
  }

  lemma WriteSameOutside(dev: seq<byte>, off: nat, image: seq<byte>, lba: nat, n: nat)
    requires Sized(dev) && off == lba * LBA_SIZE && |image| == n * LBA_SIZE && lba + n <= MAX_LBA_NUM
    ensures SameOutside(Blocks(dev), Blocks(WriteAt(dev, off, image)), lba, n)
  {
    forall b: nat | SpanClear(Blocks(dev), b, lba, n)
      ensures Blocks(WriteAt(dev, off, image))(b) == Blocks(dev)(b)
    {
      BlocksOfWrite(dev, off, image, lba, n, b);
    }
  }

  /** Block i of a value, behind the first one, begins like a record. */
  predicate MarkAt(val: seq<byte>, i: nat)
    requires i >= 1
  {
    var off := DATA_SZ + (i - 1) * LBA_SIZE;
    off + 2 <= |val| && Number(val[off..off + 2]) == METAMAGIC
  }

  ghost predicate Marked(val: seq<byte>) {
    exists i: nat | i >= 1 :: MarkAt(val, i)
  }

  lemma TwoBytes(b: seq<byte>)
    requires |b| == 2
    ensures Number(b) == (b[0] as int) + 256 * (b[1] as int)
  {
    assert b[1..] == [b[1]] && [b[1]][1..] == [];
    assert Number([b[1]]) == b[1];
  }

  /** Two bytes of the image behind the metadata: those of the value, or the second is padding. */
  lemma TwoOfImage(w: Write, image: seq<byte>, off: nat, two: seq<byte>)
    requires |w.ent.key| <= MAX_KEY_LEN && image == Image(w) && META_SZ + off + 2 <= |image|
    requires two == image[META_SZ + off..META_SZ + off + 2]
    ensures Number(two) == METAMAGIC <==> off + 2 <= |w.val| && Number(w.val[off..off + 2]) == METAMAGIC
  {
    TwoBytes(two);
    if off + 2 <= |w.val| {
      assert two == w.val[off..off + 2];
    } else {
      assert two[1] == image[META_SZ + off + 1] == 0;
    }
  }

  /** Where block i of an image is, and the mark of its value. */
  lemma MarkOfImage(w: Write, image: seq<byte>, i: nat, at: nat, two: seq<byte>)
    requires |w.ent.key| <= MAX_KEY_LEN && image == Image(w) && i >= 1 && at == i * LBA_SIZE && at + 2 <= |image|
    requires two == image[at..at + 2]
    ensures Number(two) == METAMAGIC <==> MarkAt(w.val, i)
  {
    var off := at - META_SZ;
    TwoOfImage(w, image, off, two);
    MarkIs(w.val, i, off);
  }

  lemma MarkIs(val: seq<byte>, i: nat, off: nat)
    requires i >= 1 && off == i * LBA_SIZE - META_SZ
    ensures MarkAt(val, i) <==> off + 2 <= |val| && Number(val[off..off + 2]) == METAMAGIC
  {
    assert DATA_SZ + (i - 1) * LBA_SIZE == off;
  }

  lemma BlockOfImage(dev: seq<byte>, start: nat, image: seq<byte>, at: nat, b: nat, two: seq<byte>)
    requires Sized(dev) && start + |image| <= |dev| && start + at == b * LBA_SIZE && at + LBA_SIZE <= |image|
    requires two == image[at..at + 2]
    ensures b < MAX_LBA_NUM && (HasMagic(WriteAt(dev, start, image), b) <==> Number(two) == METAMAGIC)
  {
    MagicWritten(dev, start, image, at, b);
  }

  /** A later block of a written value begins like a record exactly when the value has the mark there. */
  lemma BlocksWritten(dev: seq<byte>, w: Write, n: nat, b: nat, dev1: seq<byte>)
    requires Sized(dev) && IsKey(w.ent.key) && n == w.ent.Blks() && OnDevice(w.ent)
    requires |Image(w)| == n * LBA_SIZE && w.ent.lba < b < w.ent.lba + n
    requires dev1 == WriteAt(dev, w.ent.lba * LBA_SIZE, Image(w))
    ensures Sized(dev1) && (HasMagic(dev1, b) <==> MarkAt(w.val, b - w.ent.lba))
  {
    BlockWritten(dev, w, Image(w), n, b - w.ent.lba, b, dev1);
  }

  lemma BlockWritten(dev: seq<byte>, w: Write, image: seq<byte>, n: nat, i: nat, b: nat, dev1: seq<byte>)
    requires Sized(dev) && |w.ent.key| <= MAX_KEY_LEN && image == Image(w) && |image| == n * LBA_SIZE
    requires 0 <= w.ent.lba && w.ent.lba + n <= MAX_LBA_NUM && 1 <= i < n && b == w.ent.lba + i
    requires dev1 == WriteAt(dev, w.ent.lba * LBA_SIZE, image)
    ensures Sized(dev1) && (HasMagic(dev1, b) <==> MarkAt(w.val, i))
  {
    var at := i * LBA_SIZE;
    var two := image[at..at + 2];
    BlockOfImage(dev, w.ent.lba * LBA_SIZE, image, at, b, two);
    MarkOfImage(w, image, i, at, two);
  }

  lemma MagicWritten(dev: seq<byte>, off: nat, image: seq<byte>, at: nat, b: nat)
    requires Sized(dev) && off + |image| <= |dev| && off + at == b * LBA_SIZE && at + LBA_SIZE <= |image|
    ensures b < MAX_LBA_NUM && (HasMagic(WriteAt(dev, off, image), b) <==> Number(image[at..at + 2]) == METAMAGIC)
  {
    WriteAtThere(dev, off, image, at, at + 2);
  }

  lemma BlockRead(dev: seq<byte>, b: nat)
    requires Sized(dev) && b < MAX_LBA_NUM
    ensures Blocks(dev)(b).Some? <==> HasMagic(dev, b)
  {
  }

  // ---------------------------------------------------------------------------------------------
  // A put
  // ---------------------------------------------------------------------------------------------

  /** Entry w lies outside the entries, right behind one of them or at the start of the device. */
  ghost predicate FitsIn(ents: iset<IndexEnt>, w: IndexEnt) {
    && OnDevice(w)
    && (forall b | InRange(b, w.lba, w.Blks()) :: !Covered(ents, b))
    && (w.lba == 0 || Covered(ents, w.lba - 1))
  }

  lemma EntryClear(read: nat -> Option<Rec>, ents: iset<IndexEnt>, w: IndexEnt, e: IndexEnt)
    requires Laid(read, ents) && FitsIn(ents, w) && e in ents
    ensures !Overlap(e, w) && SpanClear(read, e.lba, w.lba, w.Blks())
  {
    assert Recorded(read, e);
    var b := if e.lba < w.lba then w.lba else e.lba;
    assert e.Has(b) ==> Covered(ents, b);
    assert InRange(b, w.lba, w.Blks()) ==> !Covered(ents, b);
  }

  lemma GapClear(read: nat -> Option<Rec>, ents: iset<IndexEnt>, w: IndexEnt, b: nat)
    requires Laid(read, ents) && FitsIn(ents, w) && b < MAX_LBA_NUM && !Covered(ents, b) && !w.Has(b)
    ensures SpanClear(read, b, w.lba, w.Blks())
  {
    if read(b).Some? {
      var n := read(b).value.ent.Blks();
      assert Leftover(ents, read(b).value, b);
      if b < w.lba < b + n {
        assert InRange(w.lba - 1, b, n);
      }
    }
  }

  /** The blocks of an entry read as before. */
  lemma EntrySame(read: nat -> Option<Rec>, read1: nat -> Option<Rec>, ents: iset<IndexEnt>, w: IndexEnt, e: IndexEnt)
    requires Laid(read, ents) && FitsIn(ents, w) && e in ents && SameOutside(read, read1, w.lba, w.Blks())
    ensures Recorded(read1, e) && (Unmarked(read, e) ==> Unmarked(read1, e))
  {
    assert Recorded(read, e);
    EntryClear(read, ents, w, e);
    if Unmarked(read, e) {
      forall b: nat | e.lba < b < e.lba + e.Blks()
        ensures read1(b) == None
      {
        assert SpanClear(read, b, w.lba, w.Blks());
      }
    }
  }

  /** One more entry. */
  lemma LaidMore(read: nat -> Option<Rec>, read1: nat -> Option<Rec>, ents: iset<IndexEnt>, w: IndexEnt,
                 more: iset<IndexEnt>)
    requires Laid(read, ents) && FitsIn(ents, w) && SameOutside(read, read1, w.lba, w.Blks())
    requires Positioned(read1) && Recorded(read1, w) && more == ents + iset{w}
    ensures Laid(read1, more)
  {
    forall e | e in more
      ensures Recorded(read1, e) && (Overlap(e, w) ==> e == w)
    {
      if e in ents {
        EntrySame(read, read1, ents, w, e);
        EntryClear(read, ents, w, e);
      }
    }
    forall b: nat | b < MAX_LBA_NUM && !Covered(more, b) && read1(b).Some?
      ensures Leftover(more, read1(b).value, b)
    {
      GapMore(read, read1, ents, w, more, b);
    }
  }

  lemma GapMore(read: nat -> Option<Rec>, read1: nat -> Option<Rec>, ents: iset<IndexEnt>, w: IndexEnt,
                more: iset<IndexEnt>, b: nat)
    requires Laid(read, ents) && FitsIn(ents, w) && SameOutside(read, read1, w.lba, w.Blks())
    requires more == ents + iset{w} && b < MAX_LBA_NUM && !Covered(more, b)
    ensures !Covered(ents, b) && read1(b) == read(b)
    ensures read1(b).Some? ==> Leftover(more, read1(b).value, b)
  {
    Fewer(ents, more, b);
    assert w in more && !w.Has(b);
    GapClear(read, ents, w, b);
    if read(b).Some? {
      var r := read(b).value;
      assert Leftover(ents, r, b);
      forall c | InRange(c, b, r.ent.Blks())
        ensures !Covered(more, c)
      {
        assert !Covered(ents, c) && !w.Has(c);
      }
    }
  }

  lemma Fewer(ents: iset<IndexEnt>, more: iset<IndexEnt>, b: int)
    requires ents <= more
    ensures Covered(ents, b) ==> Covered(more, b)
  {
  }

  /** One entry less: its record is left behind. */
  lemma LaidWithout(read: nat -> Option<Rec>, ents: iset<IndexEnt>, less: iset<IndexEnt>, p: IndexEnt)
    requires Laid(read, ents) && p in ents && less == ents - iset{p} && Unmarked(read, p)
    ensures Laid(read, less)
  {
    forall b: nat | b < MAX_LBA_NUM && !Covered(less, b) && read(b).Some?
      ensures Leftover(less, read(b).value, b)
    {
      GapWithout(read, ents, less, p, b);
    }
  }

  lemma GapWithout(read: nat -> Option<Rec>, ents: iset<IndexEnt>, less: iset<IndexEnt>, p: IndexEnt, b: nat)
    requires Laid(read, ents) && p in ents && less == ents - iset{p} && Unmarked(read, p)
    requires b < MAX_LBA_NUM && !Covered(less, b) && read(b).Some?
    ensures Leftover(less, read(b).value, b)
    ensures !Covered(ents, b) || read(b).value.ent == p
  {
    if Covered(ents, b) {
      OnlyThere(ents, less, p, b);
      OwnLeftover(read, ents, less, p);
      assert b == p.lba;
    } else {
      assert Leftover(ents, read(b).value, b);
      LeftoverLess(ents, less, read(b).value, b);
    }
  }

  lemma OnlyThere(ents: iset<IndexEnt>, less: iset<IndexEnt>, p: IndexEnt, b: int)
    requires less == ents - iset{p} && Covered(ents, b) && !Covered(less, b)
    ensures p.Has(b)
  {
    var e :| e in ents && e.Has(b);
    assert e == p || e in less;
  }

  lemma OwnLeftover(read: nat -> Option<Rec>, ents: iset<IndexEnt>, less: iset<IndexEnt>, p: IndexEnt)
    requires Laid(read, ents) && p in ents && less == ents - iset{p}
    ensures Recorded(read, p) && Leftover(less, Rec(p.lba, p, true), p.lba)
  {
    assert Recorded(read, p);
    forall c | InRange(c, p.lba, p.Blks())
      ensures !Covered(less, c)
    {
      if Covered(less, c) {
        var f :| f in less && f.Has(c);
        assert Overlap(f, p);
      }
    }
  }

  lemma LeftoverLess(ents: iset<IndexEnt>, less: iset<IndexEnt>, r: Rec, b: nat)
    requires Leftover(ents, r, b) && less <= ents
    ensures Leftover(less, r, b)
  {
    forall c | InRange(c, b, r.ent.Blks())
      ensures !Covered(less, c)
    {
      Fewer(less, ents, c);
    }
  }

  /** The entries after a put: the new one takes the place of the one under its key. */
  lemma PutEntries(s: Store, hash: Key -> nat, key: Key, val: seq<byte>, e: IndexEnt)
    requires Settled(s) && Filed(s, hash) && Admissible(s, hash, key, val)
    ensures |PutNow(s, hash, key, val).buckets| == MAX_ENTRIES && Filed(PutNow(s, hash, key, val), hash)
    ensures e in Entries(PutNow(s, hash, key, val), hash) <==>
              e == Placed(s, hash, key, val).ent || (e in Entries(s, hash) && e.key != key)
  {
    var h, w, r := BucketOf(hash, key), Placed(s, hash, key, val).ent, PutNow(s, hash, key, val);
    UpdateMembers(s.buckets[h], w, e);
    assert r.buckets == s.buckets[h := UpdateChain(s.buckets[h], w)];
    forall g, i | 0 <= g < MAX_ENTRIES && 0 <= i < |r.buckets[g]|
      ensures BucketOf(hash, r.buckets[g][i].key) == g
    {
      if g == h {
        UpdatedKeys(s.buckets[h], w, i);
      }
    }
  }

  /** The blocks of a put. */
  lemma PutFitsIn(s: Store, hash: Key -> nat, key: Key, val: seq<byte>)
    requires Settled(s) && Filed(s, hash) && Admissible(s, hash, key, val)
    ensures FitsIn(Entries(s, hash), Placed(s, hash, key, val).ent)
  {
    TakenFitsIn(s, hash, NumBlks(|val|), Placed(s, hash, key, val).ent);
  }

  lemma TakenFitsIn(s: Store, hash: Key -> nat, n: nat, w: IndexEnt)
    requires Quiet(s) && Filed(s, hash) && n > 0 && FirstFit(s.free, n, 0) < |s.free|
    requires w.lba == GetBlk(s.free, n).0 && w.Blks() == n
    ensures FitsIn(Entries(s, hash), w)
  {
    AllocatedOnDevice(s, n);
    GetBlkFromStart(s.free, n);
    FreeFitsIn(s, hash, w);
  }

  lemma FreeFitsIn(s: Store, hash: Key -> nat, w: IndexEnt)
    requires Quiet(s) && Filed(s, hash) && OnDevice(w) && AllFree(s.free, w.lba, w.Blks()) && !Free(s.free, w.lba - 1)
    ensures FitsIn(Entries(s, hash), w)
  {
    FreeExactly(s, hash, w.lba - 1);
    forall b | InRange(b, w.lba, w.Blks())
      ensures !Covered(Entries(s, hash), b)
    {
      FreeExactly(s, hash, b);
    }
  }

  /** The key has not been given its last version. */
  ghost predicate Fresher(s: Store, hash: Key -> nat, key: Key)
    requires |s.buckets| == MAX_ENTRIES
  {
    Stored(s, hash, key) ==> Find(s, hash, key).value.version < 65535
  }

  lemma FoundIsStored(s: Store, hash: Key -> nat, key: Key)
    requires |s.buckets| == MAX_ENTRIES && Unambiguous(s.buckets[BucketOf(hash, key)], key)
    ensures Find(s, hash, key).Some? <==> Stored(s, hash, key)
  {
    UnambiguousNotShadowed(s.buckets[BucketOf(hash, key)], key);
    ExactHasKey(s.buckets[BucketOf(hash, key)], key);
  }

  lemma NewVersion(s: Store, hash: Key -> nat, key: Key, val: seq<byte>)
    requires Settled(s) && Admissible(s, hash, key, val) && Fresher(s, hash, key)
    ensures Placed(s, hash, key, val).ent.version ==
              if Stored(s, hash, key) then Find(s, hash, key).value.version + 1 else 1
  {
    FoundIsStored(s, hash, key);
    VersionAfter(Find(s, hash, key));
  }

  lemma VersionAfter(prior: Option<IndexEnt>)
    ensures prior.Some? && prior.value.version < 65535 ==> NextVersion(prior) == prior.value.version + 1
    ensures prior.Some? && prior.value.version == 65535 ==> NextVersion(prior) == 0
    ensures prior.None? ==> NextVersion(prior) == 1
  {
  }

  /** What was outdated stays so. */
  lemma StillOutdated(s: Store, hash: Key -> nat, key: Key, val: seq<byte>, e: IndexEnt)
    requires Settled(s) && Admissible(s, hash, key, val) && Fresher(s, hash, key) && Outdated(s, hash, e)
    ensures |PutNow(s, hash, key, val).buckets| == MAX_ENTRIES && Outdated(PutNow(s, hash, key, val), hash, e)
  {
    var h := BucketOf(hash, key);
    FoundEntry(s, hash, e.key);
    NewVersion(s, hash, key, val);
    if e.key != key && BucketOf(hash, e.key) == h {
      var i :| 0 <= i < |s.buckets[h]| && s.buckets[h][i] == Find(s, hash, e.key).value;
      assert s.buckets[h][i].key == e.key;
    }
    PutNowFind(s, hash, key, val, e.key);
  }

  /** What the device reads after a put. */
  ghost predicate PutReads(read: nat -> Option<Rec>, read1: nat -> Option<Rec>, w: IndexEnt) {
    Positioned(read1) && Recorded(read1, w) && SameOutside(read, read1, w.lba, w.Blks())
  }

  /** With the record of the put on the device, before the one it replaces is given up. */
  lemma PutLaid(s: Store, hash: Key -> nat, read: nat -> Option<Rec>, later: iset<Key>, read1: nat -> Option<Rec>,
                key: Key, val: seq<byte>, more: iset<IndexEnt>)
    requires DurableBy(s, hash, read, later) && Admissible(s, hash, key, val)
    requires PutReads(read, read1, Placed(s, hash, key, val).ent)
    requires more == Entries(s, hash) + iset{Placed(s, hash, key, val).ent}
    ensures Laid(read1, more)
    ensures forall b: nat | b < MAX_LBA_NUM && !Covered(more, b) && read1(b).Some? ::
              Outdated(s, hash, read1(b).value.ent)
  {
    var w := Placed(s, hash, key, val).ent;
    PutFitsIn(s, hash, key, val);
    LaidMore(read, read1, Entries(s, hash), w, more);
    forall b: nat | b < MAX_LBA_NUM && !Covered(more, b) && read1(b).Some?
      ensures Outdated(s, hash, read1(b).value.ent)
    {
      GapMore(read, read1, Entries(s, hash), w, more, b);
    }
  }

  /** The entries after a put, once there was an entry under the key. */
  lemma ReplacedEntries(s: Store, hash: Key -> nat, key: Key, val: seq<byte>, p: IndexEnt, w: IndexEnt)
    requires Settled(s) && Filed(s, hash) && Admissible(s, hash, key, val)
    requires w == Placed(s, hash, key, val).ent && Stored(s, hash, key) && p == Find(s, hash, key).value
    ensures |PutNow(s, hash, key, val).buckets| == MAX_ENTRIES && p in Entries(s, hash) && p != w
    ensures Entries(PutNow(s, hash, key, val), hash) == Entries(s, hash) + iset{w} - iset{p}
  {
    FoundEntry(s, hash, key);
    PlacedIsNew(s, hash, key, val);
    forall e
      ensures e in Entries(PutNow(s, hash, key, val), hash) <==> e in Entries(s, hash) + iset{w} - iset{p}
    {
      PutEntries(s, hash, key, val, e);
      if e in Entries(s, hash) {
        EntryFound(s, hash, e);
      }
    }
  }

  /** The entries after a put under a new key. */
  lemma AddedEntries(s: Store, hash: Key -> nat, key: Key, val: seq<byte>, w: IndexEnt)
    requires Settled(s) && Filed(s, hash) && Admissible(s, hash, key, val)
    requires w == Placed(s, hash, key, val).ent && !Stored(s, hash, key)
    ensures |PutNow(s, hash, key, val).buckets| == MAX_ENTRIES
    ensures Entries(PutNow(s, hash, key, val), hash) == Entries(s, hash) + iset{w}
  {
    forall e
      ensures e in Entries(PutNow(s, hash, key, val), hash) <==> e in Entries(s, hash) + iset{w}
    {
      PutEntries(s, hash, key, val, e);
      if e in Entries(s, hash) {
        EntryFound(s, hash, e);
      }
    }
  }

  /** A put that a restart will not forget. */
  ghost predicate Sure(s: Store, hash: Key -> nat, later: iset<Key>, key: Key, val: seq<byte>)
    requires |s.buckets| == MAX_ENTRIES
  {
    Admissible(s, hash, key, val) && val != [] && Fresher(s, hash, key) && key in later
  }

  lemma PutKept(s: Store, hash: Key -> nat, read: nat -> Option<Rec>, later: iset<Key>, read1: nat -> Option<Rec>,
                less: iset<Key>, key: Key, val: seq<byte>, e: IndexEnt)
    requires DurableBy(s, hash, read, later) && Sure(s, hash, later, key, val) && less <= later
    requires PutReads(read, read1, Placed(s, hash, key, val).ent)
    requires key in less ==> Unmarked(read1, Placed(s, hash, key, val).ent)
    requires e in Entries(s, hash) || e == Placed(s, hash, key, val).ent
    ensures Kept(read1, less, e)
  {
    var w := Placed(s, hash, key, val).ent;
    if e in Entries(s, hash) {
      assert Kept(read, later, e);
      PutFitsIn(s, hash, key, val);
      EntrySame(read, read1, Entries(s, hash), w, e);
    } else {
      NewVersion(s, hash, key, val);
      if Stored(s, hash, key) {
        FoundEntry(s, hash, key);
        assert Kept(read, later, Find(s, hash, key).value);
      }
    }
  }

  lemma PriorOutdated(s: Store, hash: Key -> nat, key: Key, val: seq<byte>, p: IndexEnt)
    requires Settled(s) && Admissible(s, hash, key, val) && Fresher(s, hash, key)
    requires Stored(s, hash, key) && p == Find(s, hash, key).value && p.valLen > 0
    ensures |PutNow(s, hash, key, val).buckets| == MAX_ENTRIES && Outdated(PutNow(s, hash, key, val), hash, p)
  {
    NewVersion(s, hash, key, val);
    PutNowFind(s, hash, key, val, key);
  }

  lemma PutAdded(s: Store, hash: Key -> nat, read: nat -> Option<Rec>, later: iset<Key>, read1: nat -> Option<Rec>,
                 less: iset<Key>, key: Key, val: seq<byte>, r: Store)
    requires DurableBy(s, hash, read, later) && Sure(s, hash, later, key, val) && less <= later
    requires PutReads(read, read1, Placed(s, hash, key, val).ent)
    requires key in less ==> Unmarked(read1, Placed(s, hash, key, val).ent)
    requires !Stored(s, hash, key) && r == PutNow(s, hash, key, val) && Settled(r) && Filed(r, hash)
    ensures DurableBy(r, hash, read1, less)
  {
    var w, ents := Placed(s, hash, key, val).ent, Entries(r, hash);
    AddedEntries(s, hash, key, val, w);
    PutLaid(s, hash, read, later, read1, key, val, ents);
    forall e | e in ents
      ensures Kept(read1, less, e)
    {
      PutKept(s, hash, read, later, read1, less, key, val, e);
    }
    forall b: nat | b < MAX_LBA_NUM && !Covered(ents, b) && read1(b).Some?
      ensures Outdated(r, hash, read1(b).value.ent)
    {
      StillOutdated(s, hash, key, val, read1(b).value.ent);
    }
  }

  lemma PutReplaced(s: Store, hash: Key -> nat, read: nat -> Option<Rec>, later: iset<Key>, read1: nat -> Option<Rec>,
                    less: iset<Key>, key: Key, val: seq<byte>, r: Store)
    requires DurableBy(s, hash, read, later) && Sure(s, hash, later, key, val) && less <= later
    requires PutReads(read, read1, Placed(s, hash, key, val).ent)
    requires key in less ==> Unmarked(read1, Placed(s, hash, key, val).ent)
    requires Stored(s, hash, key) && r == PutNow(s, hash, key, val) && Settled(r) && Filed(r, hash)
    ensures DurableBy(r, hash, read1, less)
  {
    var w, p, ents := Placed(s, hash, key, val).ent, Find(s, hash, key).value, Entries(r, hash);
    var more := Entries(s, hash) + iset{w};
    ReplacedEntries(s, hash, key, val, p, w);
    PutLaid(s, hash, read, later, read1, key, val, more);
    PutFitsIn(s, hash, key, val);
    EntrySame(read, read1, Entries(s, hash), w, p);
    assert Kept(read, later, p);
    LaidWithout(read1, more, ents, p);
    forall e | e in ents
      ensures Kept(read1, less, e)
    {
      PutKept(s, hash, read, later, read1, less, key, val, e);
    }
    forall b: nat | b < MAX_LBA_NUM && !Covered(ents, b) && read1(b).Some?
      ensures Outdated(r, hash, read1(b).value.ent)
    {
      GapWithout(read1, more, ents, p, b);
      if Covered(more, b) {
        PriorOutdated(s, hash, key, val, p);
      } else {
        StillOutdated(s, hash, key, val, read1(b).value.ent);
      }
    }
  }

  /** A put keeps the store durable; the keys that may still be overwritten can become fewer. */
  lemma PutDurableBy(s: Store, hash: Key -> nat, read: nat -> Option<Rec>, later: iset<Key>, read1: nat -> Option<Rec>,
                     less: iset<Key>, key: Key, val: seq<byte>)
    requires DurableBy(s, hash, read, later) && Sure(s, hash, later, key, val) && less <= later
    requires PutReads(read, read1, Placed(s, hash, key, val).ent)
    requires key in less ==> Unmarked(read1, Placed(s, hash, key, val).ent)
    ensures DurableBy(PutNow(s, hash, key, val), hash, read1, less)
  {
    var r := PutNow(s, hash, key, val);
    PutNowSettled(s, hash, key, val);
    PutEntries(s, hash, key, val, Placed(s, hash, key, val).ent);
    if Stored(s, hash, key) {
      PutReplaced(s, hash, read, later, read1, less, key, val, r);
    } else {
      PutAdded(s, hash, read, later, read1, less, key, val, r);
    }
  }

  // ---------------------------------------------------------------------------------------------
  // A put on the device
  // ---------------------------------------------------------------------------------------------

  lemma EntStorable(e: IndexEnt, val: seq<byte>)
    requires IsKey(e.key) && OnDevice(e) && e.valLen == |val| && e.crc == Crc32.Crc(val) && e.version < 65536
    ensures Storable(e)
  {
    Crc32.CrcIsWord(val);
    EnoughBlocks(|val|);
    PowersOf256();
    assert Pow256(5) == 256 * TWO32 && Pow256(8) >= Pow256(5);
  }

  lemma BlocksPositioned(dev: seq<byte>)
    requires Sized(dev)
    ensures Positioned(Blocks(dev))
  {
  }

  /** A write of whole blocks on the device. */
  ghost predicate Whole(dev: seq<byte>, w: Write) {
    && Sized(dev) && IsKey(w.ent.key) && OnDevice(w.ent) && |Image(w)| == w.ent.Blks() * LBA_SIZE
    && w.ent.valLen == |w.val| && w.ent.crc == Crc32.Crc(w.val) && w.ent.version < 65536
    && w.ent.lba * LBA_SIZE + |Image(w)| <= |dev|
  }

  lemma WriteRecorded(dev: seq<byte>, w: Write, dev1: seq<byte>)
    requires Whole(dev, w) && dev1 == WriteAt(dev, w.ent.lba * LBA_SIZE, Image(w))
    ensures Sized(dev1) && Recorded(Blocks(dev1), w.ent)
  {
    var off, image := w.ent.lba * LBA_SIZE, Image(w);
    EntStorable(w.ent, w.val);
    WriteAtThere(dev, off, image, 0, |image|);
    assert image[0..|image|] == image;
    BlockIsRecord(dev1, w, w.ent.Blks());
  }

  lemma MarkRead(dev: seq<byte>, w: Write, read1: nat -> Option<Rec>, b: nat)
    requires Whole(dev, w) && read1 == Blocks(WriteAt(dev, w.ent.lba * LBA_SIZE, Image(w)))
    requires w.ent.lba < b < w.ent.lba + w.ent.Blks()
    ensures read1(b).Some? <==> MarkAt(w.val, b - w.ent.lba)
  {
    var dev1 := WriteAt(dev, w.ent.lba * LBA_SIZE, Image(w));
    BlocksWritten(dev, w, w.ent.Blks(), b, dev1);
    BlockRead(dev1, b);
  }

  lemma WriteUnmarked(dev: seq<byte>, w: Write, e: IndexEnt, read1: nat -> Option<Rec>)
    requires Whole(dev, w) && read1 == Blocks(WriteAt(dev, w.ent.lba * LBA_SIZE, Image(w))) && e == w.ent
    requires !Marked(w.val)
    ensures Unmarked(read1, e)
  {
    forall b: nat | e.lba < b < e.lba + e.Blks()
      ensures read1(b) == None
    {
      MarkRead(dev, w, read1, b);
    }
  }

  /** What a write puts on the device is read back, and the rest as before. */
  lemma WriteReads(dev: seq<byte>, w: Write, dev1: seq<byte>)
    requires Whole(dev, w) && dev1 == WriteAt(dev, w.ent.lba * LBA_SIZE, Image(w))
    ensures Sized(dev1) && PutReads(Blocks(dev), Blocks(dev1), w.ent)
  {
    WriteRecorded(dev, w, dev1);
    WriteSameOutside(dev, w.ent.lba * LBA_SIZE, Image(w), w.ent.lba, w.ent.Blks());
    BlocksPositioned(dev1);
  }

  lemma PutOnDevice(s: Store, hash: Key -> nat, key: Key, val: seq<byte>)
    requires Settled(s) && Admissible(s, hash, key, val)
    ensures var t, w := PutNow(s, hash, key, val), Placed(s, hash, key, val).ent;
      && Sized(s.dev) && Sized(t.dev) && PutReads(Blocks(s.dev), Blocks(t.dev), w)
      && (!Marked(val) ==> Unmarked(Blocks(t.dev), w))
  {
    var t, w := PutNow(s, hash, key, val), Placed(s, hash, key, val);
    PutFits(s, hash, key, val);
    WriteReads(s.dev, w, t.dev);
    if !Marked(val) {
      WriteUnmarked(s.dev, w, w.ent, Blocks(t.dev));
    }
  }

  /** A put that is not the last of its key must not look like a record behind its first block; then a restart
      finds all there is, now and later. */
  lemma PutDurable(s: Store, hash: Key -> nat, later: iset<Key>, less: iset<Key>, key: Key, val: seq<byte>)
    requires Durable(s, hash, later) && Sure(s, hash, later, key, val) && less <= later
    requires key in less ==> !Marked(val)
    ensures Durable(PutNow(s, hash, key, val), hash, less)
  {
    PutOnDevice(s, hash, key, val);
    PutDurableBy(s, hash, Blocks(s.dev), later, Blocks(PutNow(s, hash, key, val).dev), less, key, val);
  }

  // ---------------------------------------------------------------------------------------------
  // The newest version
  // ---------------------------------------------------------------------------------------------

  lemma StillStored(s: Store, hash: Key -> nat, key: Key, val: seq<byte>, k: Key)
    requires Settled(s) && Filed(s, hash) && Admissible(s, hash, key, val) && (k == key || Stored(s, hash, k))
    ensures Settled(PutNow(s, hash, key, val)) && Stored(PutNow(s, hash, key, val), hash, k)
  {
    var w, t := Placed(s, hash, key, val).ent, PutNow(s, hash, key, val);
    PutNowSettled(s, hash, key, val);
    var e := w;
    if k != key {
      FoundEntry(s, hash, k);
      e := Find(s, hash, k).value;
    }
    PutEntries(s, hash, key, val, e);
    EntryFound(t, hash, e);
  }

  /** After a put the scan meets records of stored keys; those of its key are the new one, the one it replaces,
      and older ones. */
  lemma SeenAfterPut(s: Store, hash: Key -> nat, read: nat -> Option<Rec>, later: iset<Key>, read1: nat -> Option<Rec>,
                     key: Key, val: seq<byte>, more: iset<IndexEnt>, r: Rec)
    requires DurableBy(s, hash, read, later) && Admissible(s, hash, key, val)
    requires PutReads(read, read1, Placed(s, hash, key, val).ent)
    requires more == Entries(s, hash) + iset{Placed(s, hash, key, val).ent} && Seen(read1, more, r)
    ensures r.ent == Placed(s, hash, key, val).ent ||
            (Stored(s, hash, r.ent.key) &&
             (r.ent == Find(s, hash, r.ent.key).value || r.ent.version < Find(s, hash, r.ent.key).value.version))
  {
    PutLaid(s, hash, read, later, read1, key, val, more);
    if Covered(more, r.pos) {
      if r.ent in Entries(s, hash) {
        EntryFound(s, hash, r.ent);
      }
    } else {
      assert Outdated(s, hash, read1(r.pos).value.ent);
    }
  }

  lemma ScanAfterPut(s: Store, hash: Key -> nat, read: nat -> Option<Rec>, later: iset<Key>, read1: nat -> Option<Rec>,
                     key: Key, val: seq<byte>, more: iset<IndexEnt>, e: IndexEnt, t: Store)
    requires DurableBy(s, hash, read, later) && Admissible(s, hash, key, val)
    requires PutReads(read, read1, Placed(s, hash, key, val).ent)
    requires more == Entries(s, hash) + iset{Placed(s, hash, key, val).ent} && e in more && Tops(read1, more, e)
    requires t == PutNow(s, hash, key, val)
    ensures Scannable(t.dev, hash, read1)
    ensures var r := Scanned(t.dev, hash, read1); |r.buckets| == MAX_ENTRIES && Find(r, hash, e.key) == Some(e)
  {
    PutLaid(s, hash, read, later, read1, key, val, more);
    PutNowSettled(s, hash, key, val);
    StoredDistinctive(t, hash);
    forall r | Seen(read1, more, r)
      ensures r.ent.key in StoredKeys(t, hash)
    {
      SeenAfterPut(s, hash, read, later, read1, key, val, more, r);
      StillStored(s, hash, key, val, r.ent.key);
    }
    ScanFinds(t.dev, read1, more, hash, StoredKeys(t, hash), e);
  }

  /** After one more put the scan finds its entry exactly when the version of the key was not the last; at
      65535 it finds the entry that was replaced. */
  lemma NewestFound(s: Store, hash: Key -> nat, read: nat -> Option<Rec>, later: iset<Key>, read1: nat -> Option<Rec>,
                    key: Key, val: seq<byte>)
    requires DurableBy(s, hash, read, later) && Admissible(s, hash, key, val)
    requires PutReads(read, read1, Placed(s, hash, key, val).ent)
    ensures var t := PutNow(s, hash, key, val);
      && |t.buckets| == MAX_ENTRIES && Scannable(t.dev, hash, read1)
      && var r := Scanned(t.dev, hash, read1);
      && |r.buckets| == MAX_ENTRIES
      && (Find(r, hash, key) == Find(t, hash, key) <==> Fresher(s, hash, key))
      && (!Fresher(s, hash, key) ==> Find(r, hash, key) == Find(s, hash, key))
  {
    var w, t := Placed(s, hash, key, val).ent, PutNow(s, hash, key, val);
    var more := Entries(s, hash) + iset{w};
    PutNowFind(s, hash, key, val, key);
    FoundIsStored(s, hash, key);
    VersionAfter(Find(s, hash, key));
    PlacedIsNew(s, hash, key, val);
    if Stored(s, hash, key) {
      FoundEntry(s, hash, key);
      assert Kept(read, later, Find(s, hash, key).value);
    }
    var e := if Fresher(s, hash, key) then w else Find(s, hash, key).value;
    forall r | Seen(read1, more, r) && r.ent.key == key
      ensures r.ent == e || r.ent.version < e.version
    {
      SeenAfterPut(s, hash, read, later, read1, key, val, more, r);
    }
    ScanAfterPut(s, hash, read, later, read1, key, val, more, e, t);
  }

  // ---------------------------------------------------------------------------------------------
  // Runs of puts and restarts
  // ---------------------------------------------------------------------------------------------

  datatype Op = PutOp(kv: KeyVal) | RestartOp

  /** The puts of a run. */
  function PutsOf(ops: seq<Op>): seq<KeyVal> {
    if ops == [] then [] else (if ops[0].PutOp? then [ops[0].kv] else []) + PutsOf(ops[1..])
  }

  ghost predicate PutKey(puts: seq<KeyVal>, k: Key) {
    exists i | 0 <= i < |puts| :: puts[i].key == k
  }

  ghost function KeysOf(puts: seq<KeyVal>): iset<Key> {
    iset k: Key | PutKey(puts, k)
  }

  lemma KeysOfFirst(p: KeyVal, rest: seq<KeyVal>, puts: seq<KeyVal>)
    requires puts == [p] + rest
    ensures KeysOf(rest) <= KeysOf(puts) && p.key in KeysOf(puts)
  {
    assert puts[0] == p;
    forall k | k in KeysOf(rest)
      ensures k in KeysOf(puts)
    {
      var i :| 0 <= i < |rest| && rest[i].key == k;
      assert puts[i + 1].key == k;
    }
  }

  /** index_init on the device of the store. */
  ghost function Restarted(s: Store, hash: Key -> nat): Store
    requires Sized(s.dev) && Scannable(s.dev, hash, Blocks(s.dev))
  {
    Scanned(s.dev, hash, Blocks(s.dev))
  }

  lemma RestartDurable(s: Store, hash: Key -> nat, later: iset<Key>)
    requires Durable(s, hash, later)
    ensures Scannable(s.dev, hash, Blocks(s.dev)) && Durable(Restarted(s, hash), hash, later)
  {
    var r := RestartRebuilds(s, hash, Blocks(s.dev), later);
  }

  /** A put with a value that is not empty, of a key that is not at its last version; if the key is put again
      later, the value does not look like a record where one of its blocks begins. */
  ghost predicate PutAllowed(s: Store, hash: Key -> nat, p: KeyVal, later: iset<Key>)
    requires |s.buckets| == MAX_ENTRIES
  {
    && Admissible(s, hash, p.key, p.val) && p.val != [] && Fresher(s, hash, p.key)
    && (p.key in later ==> !Marked(p.val))
  }

  lemma StepDurable(s: Store, hash: Key -> nat, ops: seq<Op>)
    requires ops != [] && Durable(s, hash, KeysOf(PutsOf(ops)))
    ensures ops[0].PutOp? && PutAllowed(s, hash, ops[0].kv, KeysOf(PutsOf(ops[1..]))) ==>
              Durable(PutNow(s, hash, ops[0].kv.key, ops[0].kv.val), hash, KeysOf(PutsOf(ops[1..])))
    ensures ops[0].RestartOp? ==>
              Scannable(s.dev, hash, Blocks(s.dev)) && Durable(Restarted(s, hash), hash, KeysOf(PutsOf(ops[1..])))
  {
    var rest := PutsOf(ops[1..]);
    match ops[0]
    case PutOp(p) =>
      KeysOfFirst(p, rest, PutsOf(ops));
      if PutAllowed(s, hash, p, KeysOf(rest)) {
        PutDurable(s, hash, KeysOf(PutsOf(ops)), KeysOf(rest), p.key, p.val);
      }
    case RestartOp =>
      assert PutsOf(ops) == rest;
      RestartDurable(s, hash, KeysOf(rest));
  }

  ghost predicate Allowed(s: Store, hash: Key -> nat, ops: seq<Op>)
    requires Durable(s, hash, KeysOf(PutsOf(ops)))
    decreases |ops|
  {
    ops != [] ==>
      match ops[0]
      case PutOp(p) =>
        PutAllowed(s, hash, p, KeysOf(PutsOf(ops[1..]))) &&
        (StepDurable(s, hash, ops); Allowed(PutNow(s, hash, p.key, p.val), hash, ops[1..]))
      case RestartOp => StepDurable(s, hash, ops); Allowed(Restarted(s, hash), hash, ops[1..])
  }

  ghost function RunOps(s: Store, hash: Key -> nat, ops: seq<Op>): (r: Store)
    requires Durable(s, hash, KeysOf(PutsOf(ops))) && Allowed(s, hash, ops)
    ensures Settled(r)
    decreases |ops|
  {
    if ops == [] then s
    else
      StepDurable(s, hash, ops);
      match ops[0]
      case PutOp(p) => RunOps(PutNow(s, hash, p.key, p.val), hash, ops[1..])
      case RestartOp => RunOps(Restarted(s, hash), hash, ops[1..])
  }

  /** Key k is no proper beginning of a stored key of its bucket. */
  ghost predicate ClearOfEntries(s: Store, hash: Key -> nat, k: Key)
    requires |s.buckets| == MAX_ENTRIES
  {
    forall e | e in Entries(s, hash) :: Clear(hash, k, e.key)
  }

  lemma {:induction false} LookupBegins(chain: seq<IndexEnt>, k: Key)
    ensures Lookup(chain, k).Some? ==> k <= Lookup(chain, k).value.key && Lookup(chain, k).value in chain
    decreases |chain|
  {
    if chain != [] {
      LookupBegins(chain[1..], k);
    }
  }

  lemma ClearFound(s: Store, hash: Key -> nat, k: Key)
    requires |s.buckets| == MAX_ENTRIES && Filed(s, hash) && ClearOfEntries(s, hash, k)
    ensures Find(s, hash, k).Some? ==> Stored(s, hash, k)
  {
    var h := BucketOf(hash, k);
    LookupBegins(s.buckets[h], k);
    if Find(s, hash, k).Some? {
      var i :| 0 <= i < |s.buckets[h]| && s.buckets[h][i] == Find(s, hash, k).value;
      assert s.buckets[h][i] in Entries(s, hash);
    }
  }

  /** A restart changes the reading of no key. */
  lemma RestartReads(s: Store, hash: Key -> nat, later: iset<Key>, k: Key)
    requires Durable(s, hash, later) && ClearOfEntries(s, hash, k)
    ensures Scannable(s.dev, hash, Blocks(s.dev)) && Settled(Restarted(s, hash))
    ensures ClearOfEntries(Restarted(s, hash), hash, k)
    ensures Get(Restarted(s, hash), hash, k) == Get(s, hash, k)
  {
    var r := RestartRebuilds(s, hash, Blocks(s.dev), later);
    ClearFound(s, hash, k);
    ClearFound(r, hash, k);
    if Stored(s, hash, k) {
      SameFound(s, r, hash, k);
    } else if Stored(r, hash, k) {
      SameFound(r, s, hash, k);
    }
  }

  lemma ClearAfterPut(s: Store, hash: Key -> nat, key: Key, val: seq<byte>, k: Key)
    requires Settled(s) && Filed(s, hash) && Admissible(s, hash, key, val)
    requires ClearOfEntries(s, hash, k) && Clear(hash, k, key)
    ensures |PutNow(s, hash, key, val).buckets| == MAX_ENTRIES && ClearOfEntries(PutNow(s, hash, key, val), hash, k)
  {
    PutEntries(s, hash, key, val, Placed(s, hash, key, val).ent);
    forall e | e in Entries(PutNow(s, hash, key, val), hash)
      ensures Clear(hash, k, e.key)
    {
      PutEntries(s, hash, key, val, e);
    }
  }

  ghost predicate ClearOfPuts(hash: Key -> nat, k: Key, puts: seq<KeyVal>) {
    forall i | 0 <= i < |puts| :: Clear(hash, k, puts[i].key)
  }

  lemma ClearTail(hash: Key -> nat, k: Key, p: KeyVal, rest: seq<KeyVal>, puts: seq<KeyVal>)
    requires puts == [p] + rest && ClearOfPuts(hash, k, puts)
    ensures Clear(hash, k, p.key) && ClearOfPuts(hash, k, rest)
  {
    assert puts[0] == p;
    assert forall i | 0 <= i < |rest| :: rest[i] == puts[i + 1];
  }

  lemma LastValueCons(p: KeyVal, rest: seq<KeyVal>, puts: seq<KeyVal>, k: Key, initially: Option<seq<byte>>)
    requires puts == [p] + rest
    ensures LastValue(puts, k, initially) == LastValue(rest, k, if p.key == k then Some(p.val) else initially)
  {
    assert puts[1..] == rest && puts[0] == p;
    LastValueFirst(puts, k, initially);
  }

  /** Over any run of completed puts and of restarts, with keys overwritten and blocks used again, every restart
      runs through and a key reads as the last value written under it. */
  lemma {:induction false} DurableMap(s: Store, hash: Key -> nat, ops: seq<Op>, k: Key)
    requires Durable(s, hash, KeysOf(PutsOf(ops))) && Allowed(s, hash, ops)
    requires ClearOfEntries(s, hash, k) && ClearOfPuts(hash, k, PutsOf(ops))
    ensures Get(RunOps(s, hash, ops), hash, k) == LastValue(PutsOf(ops), k, Get(s, hash, k))
    decreases |ops|
  {
    if ops != [] {
      var tail := ops[1..];
      var s1 := RunStep(s, hash, ops, tail);
      MapStep(s, hash, ops[0], PutsOf(tail), PutsOf(ops), k, s1);
      DurableMap(s1, hash, tail, k);
    }
  }

  lemma MapStep(s: Store, hash: Key -> nat, op: Op, rest: seq<KeyVal>, puts: seq<KeyVal>, k: Key, s1: Store)
    requires Durable(s, hash, KeysOf(puts)) && Settled(s1) && puts == (if op.PutOp? then [op.kv] else []) + rest
    requires ClearOfEntries(s, hash, k) && ClearOfPuts(hash, k, puts)
    requires op.PutOp? ==> Admissible(s, hash, op.kv.key, op.kv.val) && s1 == PutNow(s, hash, op.kv.key, op.kv.val)
    requires op.RestartOp? ==> Scannable(s.dev, hash, Blocks(s.dev)) && s1 == Restarted(s, hash)
    ensures ClearOfEntries(s1, hash, k) && ClearOfPuts(hash, k, rest)
    ensures LastValue(puts, k, Get(s, hash, k)) == LastValue(rest, k, Get(s1, hash, k))
  {
    if op.PutOp? {
      ClearTail(hash, k, op.kv, rest, puts);
      var s2 := MapPut(s, hash, op.kv, k);
      LastValueCons(op.kv, rest, puts, k, Get(s, hash, k));
    } else {
      assert puts == rest;
      var s2 := MapRestart(s, hash, KeysOf(puts), k);
    }
  }

  /** The first step of a run. */
  lemma RunStep(s: Store, hash: Key -> nat, ops: seq<Op>, tail: seq<Op>) returns (s1: Store)
    requires Durable(s, hash, KeysOf(PutsOf(ops))) && Allowed(s, hash, ops) && ops != [] && tail == ops[1..]
    ensures PutsOf(ops) == (if ops[0].PutOp? then [ops[0].kv] else []) + PutsOf(tail)
    ensures ops[0].PutOp? ==> Admissible(s, hash, ops[0].kv.key, ops[0].kv.val)
                              && s1 == PutNow(s, hash, ops[0].kv.key, ops[0].kv.val)
    ensures ops[0].RestartOp? ==> Scannable(s.dev, hash, Blocks(s.dev)) && s1 == Restarted(s, hash)
    ensures Durable(s1, hash, KeysOf(PutsOf(tail))) && Allowed(s1, hash, tail)
    ensures RunOps(s, hash, ops) == RunOps(s1, hash, tail)
  {
    StepDurable(s, hash, ops);
    s1 := if ops[0].PutOp? then PutNow(s, hash, ops[0].kv.key, ops[0].kv.val) else Restarted(s, hash);
  }

  lemma MapPut(s: Store, hash: Key -> nat, p: KeyVal, k: Key) returns (s1: Store)
    requires Settled(s) && Filed(s, hash) && Admissible(s, hash, p.key, p.val)
    requires ClearOfEntries(s, hash, k) && Clear(hash, k, p.key)
    ensures s1 == PutNow(s, hash, p.key, p.val) && Settled(s1) && ClearOfEntries(s1, hash, k)
    ensures Get(s1, hash, k) == if p.key == k then Some(p.val) else Get(s, hash, k)
  {
    s1 := PutNow(s, hash, p.key, p.val);
    PutGet(s, hash, p.key, p.val, k);
    ClearAfterPut(s, hash, p.key, p.val, k);
  }

  lemma MapRestart(s: Store, hash: Key -> nat, later: iset<Key>, k: Key) returns (s1: Store)
    requires Durable(s, hash, later) && ClearOfEntries(s, hash, k)
    ensures Scannable(s.dev, hash, Blocks(s.dev)) && s1 == Restarted(s, hash)
    ensures Settled(s1) && ClearOfEntries(s1, hash, k) && Get(s1, hash, k) == Get(s, hash, k)
  {
    RestartReads(s, hash, later, k);
    s1 := Restarted(s, hash);
  }

  // ---------------------------------------------------------------------------------------------
  // How often a key may be put
  // ---------------------------------------------------------------------------------------------

  ghost predicate Blank(dev: seq<byte>) {
    Sized(dev) && forall i | 0 <= i < |dev| :: dev[i] == 0
  }

  function Count(puts: seq<KeyVal>, k: Key): nat {
    if puts == [] then 0 else (if puts[0].key == k then 1 else 0) + Count(puts[1..], k)
  }

  ghost predicate NoneEmpty(puts: seq<KeyVal>) {
    forall i | 0 <= i < |puts| :: puts[i].val != []
  }

  /** Only the last value of a key may look like a record where one of its blocks begins. */
  ghost predicate Overwritable(puts: seq<KeyVal>) {
    forall i, j | 0 <= i < j < |puts| && puts[i].key == puts[j].key :: !Marked(puts[i].val)
  }

  ghost function Version(s: Store, hash: Key -> nat, k: Key): nat
    requires |s.buckets| == MAX_ENTRIES
  {
    if Stored(s, hash, k) then Find(s, hash, k).value.version else 0
  }

  lemma BlankEntries(dev: seq<byte>, hash: Key -> nat)
    ensures Entries(Fresh(dev), hash) == iset{}
  {
  }

  lemma BlankDurable(dev: seq<byte>, hash: Key -> nat, later: iset<Key>)
    requires Blank(dev)
    ensures Durable(Fresh(dev), hash, later) && forall k :: Version(Fresh(dev), hash, k) == 0
  {
    var s, read := Fresh(dev), Blocks(dev);
    FreshConserved(dev);
    assert s.free == [Extent(0, MAX_LBA_NUM)] && s.free[1..] == [];
    forall b: nat | b < MAX_LBA_NUM
      ensures read(b) == None
    {
      NoMagicInZeros(dev, b);
    }
    BlankEntries(dev, hash);
    BlocksPositioned(dev);
  }

  /** A put gives its key the next version and leaves the others alone. */
  lemma PutVersion(s: Store, hash: Key -> nat, key: Key, val: seq<byte>, k: Key)
    requires Settled(s) && Filed(s, hash) && Admissible(s, hash, key, val) && Fresher(s, hash, key)
    ensures Settled(PutNow(s, hash, key, val))
    ensures Version(PutNow(s, hash, key, val), hash, k) == Version(s, hash, k) + if k == key then 1 else 0
  {
    var t := PutNow(s, hash, key, val);
    PutNowSettled(s, hash, key, val);
    if k == key {
      NewVersion(s, hash, key, val);
      PutNowFind(s, hash, key, val, key);
    } else {
      SameVersion(s, hash, key, val, k, t);
    }
  }

  lemma SameVersion(s: Store, hash: Key -> nat, key: Key, val: seq<byte>, k: Key, t: Store)
    requires Settled(s) && Filed(s, hash) && Admissible(s, hash, key, val)
    requires t == PutNow(s, hash, key, val) && Settled(t) && k != key
    ensures Version(t, hash, k) == Version(s, hash, k)
  {
    if Stored(s, hash, k) {
      FoundEntry(s, hash, k);
      PutEntries(s, hash, key, val, Find(s, hash, k).value);
      EntryFound(t, hash, Find(s, hash, k).value);
    } else if Stored(t, hash, k) {
      FoundEntry(t, hash, k);
      PutEntries(s, hash, key, val, Find(t, hash, k).value);
      EntryFound(s, hash, Find(t, hash, k).value);
    }
  }

  /** No key is put more often than it has versions left. */
  ghost predicate VersionsLeft(s: Store, hash: Key -> nat, puts: seq<KeyVal>)
    requires |s.buckets| == MAX_ENTRIES
  {
    forall k :: Version(s, hash, k) + Count(puts, k) <= 65535
  }

  lemma OverwritableTail(p: KeyVal, rest: seq<KeyVal>, puts: seq<KeyVal>)
    requires puts == [p] + rest && Overwritable(puts) && NoneEmpty(puts)
    ensures Overwritable(rest) && NoneEmpty(rest) && p.val != []
    ensures p.key in KeysOf(rest) ==> !Marked(p.val)
  {
    assert puts[0] == p;
    assert forall i | 0 <= i < |rest| :: rest[i] == puts[i + 1];
    if p.key in KeysOf(rest) {
      var i :| 0 <= i < |rest| && rest[i].key == p.key;
      assert puts[i + 1].key == puts[0].key;
    }
  }

  lemma FirstPut(s: Store, hash: Key -> nat, p: KeyVal, rest: seq<KeyVal>, puts: seq<KeyVal>) returns (s1: Store)
    requires Durable(s, hash, KeysOf(puts)) && puts == [p] + rest && Admissible(s, hash, p.key, p.val)
    requires NoneEmpty(puts) && Overwritable(puts) && VersionsLeft(s, hash, puts)
    ensures s1 == PutNow(s, hash, p.key, p.val) && Durable(s1, hash, KeysOf(rest))
    ensures NoneEmpty(rest) && Overwritable(rest) && VersionsLeft(s1, hash, rest)
    ensures forall k :: Version(s1, hash, k) + Count(rest, k) == Version(s, hash, k) + Count(puts, k)
  {
    assert puts[0] == p && puts[1..] == rest;
    assert Version(s, hash, p.key) + Count(puts, p.key) <= 65535;
    OverwritableTail(p, rest, puts);
    KeysOfFirst(p, rest, puts);
    PutDurable(s, hash, KeysOf(puts), KeysOf(rest), p.key, p.val);
    s1 := PutNow(s, hash, p.key, p.val);
    forall k
      ensures Version(s1, hash, k) + Count(rest, k) == Version(s, hash, k) + Count(puts, k)
    {
      PutVersion(s, hash, p.key, p.val, k);
    }
  }

  /** Puts keep the store durable, and count the versions. */
  lemma {:induction false} PutsDurable(s: Store, hash: Key -> nat, puts: seq<KeyVal>)
    requires Durable(s, hash, KeysOf(puts)) && AllAdmissible(s, hash, puts)
    requires NoneEmpty(puts) && Overwritable(puts) && VersionsLeft(s, hash, puts)
    ensures Durable(PutAll(s, hash, puts), hash, iset{})
    ensures forall k :: Version(PutAll(s, hash, puts), hash, k) == Version(s, hash, k) + Count(puts, k)
    decreases |puts|
  {
    if puts == [] {
      NothingLater(s, hash, KeysOf(puts));
    } else {
      var p, rest := puts[0], puts[1..];
      assert puts == [p] + rest;
      var s1 := FirstPut(s, hash, p, rest, puts);
      PutsDurable(s1, hash, rest);
    }
  }

  lemma NothingLater(s: Store, hash: Key -> nat, later: iset<Key>)
    requires Durable(s, hash, later)
    ensures Durable(s, hash, iset{})
  {
    DurableLess(s, hash, Blocks(s.dev), later, iset{});
  }

  lemma DurableLess(s: Store, hash: Key -> nat, read: nat -> Option<Rec>, later: iset<Key>, less: iset<Key>)
    requires DurableBy(s, hash, read, later) && less <= later
    ensures DurableBy(s, hash, read, less)
  {
    forall e | e in Entries(s, hash)
      ensures Kept(read, less, e)
    {
      assert Kept(read, later, e);
    }
  }

  /** After a restart everything is as it was: the same entries in every bucket and the same free list. */
  ghost predicate Recovers(t: Store, hash: Key -> nat) {
    && Sized(t.dev) && Scannable(t.dev, hash, Blocks(t.dev)) && |t.buckets| == MAX_ENTRIES
    && var r := Restarted(t, hash);
    && |r.buckets| == MAX_ENTRIES && Filed(r, hash) && Entries(r, hash) == Entries(t, hash) && r.free == t.free
  }

  /** A new device, and then any sequence of completed puts, keys overwritten and blocks used again: if no key is
      put more than 65535 times and no value that is overwritten looks like a record where one of its blocks
      begins, the scan at the next start rebuilds every bucket and the free list, and meets no empty value. */
  lemma CrashLosesNothing(dev: seq<byte>, hash: Key -> nat, puts: seq<KeyVal>)
    requires Blank(dev) && Settled(Fresh(dev)) && AllAdmissible(Fresh(dev), hash, puts)
    requires NoneEmpty(puts) && Overwritable(puts) && forall k :: Count(puts, k) <= 65535
    ensures var t := PutAll(Fresh(dev), hash, puts);
      Recovers(t, hash) && forall i | 0 <= i < |Visit(Blocks(t.dev), 0)| :: Visit(Blocks(t.dev), 0)[i].ent.valLen > 0
  {
    BlankDurable(dev, hash, KeysOf(puts));
    PutsDurable(Fresh(dev), hash, puts);
    var t := PutAll(Fresh(dev), hash, puts);
    var r := RestartRebuilds(t, hash, Blocks(t.dev), iset{});
  }

  /** After such a sequence one more put is found by the next start exactly when its key has been put fewer than
      65535 times: the version after 65535 is 0, and the record it replaces wins. */
  lemma NewestWinsExactly(dev: seq<byte>, hash: Key -> nat, puts: seq<KeyVal>, p: KeyVal)
    requires Blank(dev) && Settled(Fresh(dev)) && AllAdmissible(Fresh(dev), hash, puts)
    requires NoneEmpty(puts) && Overwritable(puts) && forall k :: Count(puts, k) <= 65535
    requires Admissible(PutAll(Fresh(dev), hash, puts), hash, p.key, p.val)
    ensures var t := PutNow(PutAll(Fresh(dev), hash, puts), hash, p.key, p.val);
      && Sized(t.dev) && Scannable(t.dev, hash, Blocks(t.dev)) && |t.buckets| == MAX_ENTRIES
      && |Restarted(t, hash).buckets| == MAX_ENTRIES
      && (Find(Restarted(t, hash), hash, p.key) == Find(t, hash, p.key) <==> Count(puts, p.key) < 65535)
      && (Count(puts, p.key) == 65535 ==>
            Find(Restarted(t, hash), hash, p.key) == Find(PutAll(Fresh(dev), hash, puts), hash, p.key) != None)
  {
    var s := PutAll(Fresh(dev), hash, puts);
    BlankDurable(dev, hash, KeysOf(puts));
    PutsDurable(Fresh(dev), hash, puts);
    PutOnDevice(s, hash, p.key, p.val);
    NewestFound(s, hash, Blocks(s.dev), iset{}, Blocks(PutNow(s, hash, p.key, p.val).dev), p.key, p.val);
    CountIsVersion(s, hash, Blocks(s.dev), p.key);
  }

  lemma CountIsVersion(s: Store, hash: Key -> nat, read: nat -> Option<Rec>, k: Key)
    requires DurableBy(s, hash, read, iset{})
    ensures Fresher(s, hash, k) <==> Version(s, hash, k) < 65535
  {
  }

  /** init_cb asserts that it meets no empty value: after one more put that is so exactly when the value put is not
      empty. */
  lemma EmptyMetExactly(s: Store, hash: Key -> nat, later: iset<Key>, key: Key, val: seq<byte>)
    requires Durable(s, hash, later) && Admissible(s, hash, key, val)
    ensures var t := PutNow(s, hash, key, val);
      && Sized(t.dev)
      && ((forall i | 0 <= i < |Visit(Blocks(t.dev), 0)| :: Visit(Blocks(t.dev), 0)[i].ent.valLen > 0) <==> val != [])
  {
    PutOnDevice(s, hash, key, val);
    NoneEmptySeen(s, hash, Blocks(s.dev), later, Blocks(PutNow(s, hash, key, val).dev), key, val);
  }

  lemma NoneEmptySeen(s: Store, hash: Key -> nat, read: nat -> Option<Rec>, later: iset<Key>,
                      read1: nat -> Option<Rec>, key: Key, val: seq<byte>)
    requires DurableBy(s, hash, read, later) && Admissible(s, hash, key, val)
    requires PutReads(read, read1, Placed(s, hash, key, val).ent)
    ensures (forall i | 0 <= i < |Visit(read1, 0)| :: Visit(read1, 0)[i].ent.valLen > 0) <==> val != []
  {
    var w := Placed(s, hash, key, val).ent;
    var more, recs := Entries(s, hash) + iset{w}, Visit(read1, 0);
    PutLaid(s, hash, read, later, read1, key, val, more);
    LaidScans(read1, more);
    assert w in more && Rec(w.lba, w, true) in recs;
    forall i | 0 <= i < |recs| && recs[i].ent != w
      ensures recs[i].ent.valLen > 0
    {
      assert Seen(read1, more, recs[i]);
      if recs[i].ent in Entries(s, hash) {
        assert Kept(read, later, recs[i].ent);
      } else {
        assert Outdated(s, hash, read1(recs[i].pos).value.ent);
      }
    }
  }

  // ---------------------------------------------------------------------------------------------
  // A key put too often
  // ---------------------------------------------------------------------------------------------

  /** A key with a value of one byte. */
  predicate Short(p: KeyVal) {
    IsKey(p.key) && |p.val| == 1
  }

  lemma {:induction false} CountSame(n: nat, p: KeyVal, k: Key)
    ensures Count(Repeat(n, p), k) == if k == p.key then n else 0
    decreases n
  {
    if n > 0 {
      assert Repeat(n, p)[1..] == Repeat(n - 1, p);
      CountSame(n - 1, p, k);
    }
  }

  /** A store with nothing but a short value under the one key, in one of the first two blocks. */
  ghost predicate OnlyOne(s: Store, hash: Key -> nat, key: Key) {
    && Settled(s) && Filed(s, hash)
    && forall e | e in Entries(s, hash) :: e.key == key && e.valLen == 1 && 0 <= e.lba <= 1
  }

  lemma OnlyOneCovers(s: Store, hash: Key -> nat, key: Key, b: int)
    requires OnlyOne(s, hash, key)
    ensures Covered(Entries(s, hash), b) <==> Stored(s, hash, key) && Find(s, hash, key).value.lba == b
    ensures Stored(s, hash, key) ==> 0 <= Find(s, hash, key).value.lba <= 1
  {
    if Stored(s, hash, key) {
      FoundEntry(s, hash, key);
      assert Find(s, hash, key).value.Has(b) <==> Find(s, hash, key).value.lba == b;
    }
    if Covered(Entries(s, hash), b) {
      var e :| e in Entries(s, hash) && e.Has(b);
      EntryFound(s, hash, e);
    }
  }

  lemma OnlyOneFree(s: Store, hash: Key -> nat, key: Key, b: int)
    requires OnlyOne(s, hash, key)
    ensures Free(s.free, b) <==>
              0 <= b < MAX_LBA_NUM && !(Stored(s, hash, key) && Find(s, hash, key).value.lba == b)
  {
    FreeExactly(s, hash, b);
    OnlyOneCovers(s, hash, key, b);
  }

  lemma OnlyOneBase(s: Store, hash: Key -> nat, key: Key)
    requires OnlyOne(s, hash, key)
    ensures FirstFit(s.free, 1, 0) < |s.free| && GetBlk(s.free, 1).0 <= 1
    ensures Stored(s, hash, key) ==> RoomAbove(GetBlk(s.free, 1).1, Find(s, hash, key).value.lba)
  {
    var at := if Stored(s, hash, key) then Find(s, hash, key).value.lba else 1;
    OnlyOneCovers(s, hash, key, at);
    var l := 1 - at;
    OnlyOneFree(s, hash, key, l);
    OnlyOneFree(s, hash, key, 2);
    assert AllFree(s.free, l, 1);
    GetBlkLowest(s.free, 1, l);
    GetBlkTakes(s.free, 1, 2);
    if Stored(s, hash, key) {
      OnlyOneFree(s, hash, key, at);
      GetBlkTakes(s.free, 1, at);
      RoomFromFree(GetBlk(s.free, 1).1, at, 2);
    }
  }

  lemma OnlyOneUnambiguous(s: Store, hash: Key -> nat, key: Key)
    requires OnlyOne(s, hash, key)
    ensures Unambiguous(s.buckets[BucketOf(hash, key)], key)
  {
    var chain := s.buckets[BucketOf(hash, key)];
    forall i | 0 <= i < |chain|
      ensures chain[i].key == key
    {
      assert chain[i] in Entries(s, hash);
    }
  }

  lemma OnlyOnePut(s: Store, hash: Key -> nat, p: KeyVal)
    requires OnlyOne(s, hash, p.key) && Short(p)
    ensures Admissible(s, hash, p.key, p.val) && OnlyOne(PutNow(s, hash, p.key, p.val), hash, p.key)
  {
    OnlyOneBase(s, hash, p.key);
    OnlyOneUnambiguous(s, hash, p.key);
    FoundIsStored(s, hash, p.key);
    var t, w := PutNow(s, hash, p.key, p.val), Placed(s, hash, p.key, p.val).ent;
    PutNowSettled(s, hash, p.key, p.val);
    AllocatedOnDevice(s, 1);
    PutEntries(s, hash, p.key, p.val, w);
    forall e | e in Entries(t, hash)
      ensures e.key == p.key && e.valLen == 1 && 0 <= e.lba <= 1
    {
      PutEntries(s, hash, p.key, p.val, e);
    }
  }

  lemma SameFine(n: nat, p: KeyVal)
    requires Short(p)
    ensures NoneEmpty(Repeat(n, p)) && Overwritable(Repeat(n, p))
  {
    forall i: nat | i >= 1
      ensures !MarkAt(p.val, i)
    {
    }
  }

  lemma BlankOnlyOne(dev: seq<byte>, hash: Key -> nat, key: Key)
    requires Blank(dev)
    ensures OnlyOne(Fresh(dev), hash, key)
  {
    BlankDurable(dev, hash, iset{});
    BlankEntries(dev, hash);
  }

  /** The put as a map of stores. */
  ghost function PutIt(hash: Key -> nat, p: KeyVal): Store -> Store {
    (s: Store) => if Quiet(s) && Feasible(s, hash, p.key, p.val) then PutNow(s, hash, p.key, p.val) else s
  }

  lemma PutItIs(s: Store, hash: Key -> nat, p: KeyVal, f: Store -> Store)
    requires OnlyOne(s, hash, p.key) && Short(p) && f == PutIt(hash, p)
    ensures Admissible(s, hash, p.key, p.val) && f(s) == PutNow(s, hash, p.key, p.val) && OnlyOne(f(s), hash, p.key)
  {
    OnlyOnePut(s, hash, p);
  }

  lemma {:induction false} SameIterates(s: Store, hash: Key -> nat, n: nat, p: KeyVal, f: Store -> Store,
                                        puts: seq<KeyVal>)
    requires OnlyOne(s, hash, p.key) && Short(p) && f == PutIt(hash, p) && puts == Repeat(n, p)
    ensures AllAdmissible(s, hash, puts) && PutAll(s, hash, puts) == LinearMaps.Iter(f, n, s)
    ensures OnlyOne(LinearMaps.Iter(f, n, s), hash, p.key)
    decreases n
  {
    if n > 0 {
      var rest, s1 := puts[1..], f(s);
      assert rest == Repeat(n - 1, p) && puts[0] == p;
      PutItIs(s, hash, p, f);
      SameIterates(s1, hash, n - 1, p, f, rest);
      PutAllStep(s, hash, puts, rest, s1);
    }
  }

  /** One put after n others. */
  lemma SameOnce(s0: Store, hash: Key -> nat, n: nat, p: KeyVal) returns (s: Store)
    requires OnlyOne(s0, hash, p.key) && Short(p)
    ensures AllAdmissible(s0, hash, Repeat(n, p)) && s == PutAll(s0, hash, Repeat(n, p)) && OnlyOne(s, hash, p.key)
    ensures AllAdmissible(s0, hash, Repeat(n + 1, p)) && Admissible(s, hash, p.key, p.val)
    ensures PutAll(s0, hash, Repeat(n + 1, p)) == PutNow(s, hash, p.key, p.val)
  {
    var f := PutIt(hash, p);
    SameIterates(s0, hash, n, p, f, Repeat(n, p));
    SameIterates(s0, hash, n + 1, p, f, Repeat(n + 1, p));
    LinearMaps.IterAdd(f, n, 1, s0);
    s := LinearMaps.Iter(f, n, s0);
    PutItIs(s, hash, p, f);
  }

  /** From a new device: 65536 puts of one key, and the restart finds the last but one. */
  lemma WrapLoses(dev: seq<byte>, hash: Key -> nat, p: KeyVal)
    requires Blank(dev) && Short(p)
    ensures Settled(Fresh(dev)) && AllAdmissible(Fresh(dev), hash, Repeat(65536, p))
    ensures !Recovers(PutAll(Fresh(dev), hash, Repeat(65536, p)), hash)
  {
    var n := 65535;
    BlankOnlyOne(dev, hash, p.key);
    var s := SameOnce(Fresh(dev), hash, n, p);
    OnlyOnePut(s, hash, p);
    SameFine(n, p);
    forall k
      ensures Count(Repeat(n, p), k) <= 65535
    {
      CountSame(n, p, k);
    }
    CountSame(n, p, p.key);
    NewestWinsExactly(dev, hash, Repeat(n, p), p);
    DifferentNow(PutNow(s, hash, p.key, p.val), hash, p.key, Find(s, hash, p.key));
  }

  /** If the restart finds another entry under the key, not everything is as it was. */
  lemma DifferentNow(t: Store, hash: Key -> nat, key: Key, prior: Option<IndexEnt>)
    requires OnlyOne(t, hash, key) && Sized(t.dev) && Scannable(t.dev, hash, Blocks(t.dev))
    requires |Restarted(t, hash).buckets| == MAX_ENTRIES && Find(Restarted(t, hash), hash, key) == prior
    requires prior.Some? && prior != Find(t, hash, key)
    ensures !Recovers(t, hash)
  {
    var r, e, h := Restarted(t, hash), prior.value, BucketOf(hash, key);
    if Recovers(t, hash) {
      LookupBegins(r.buckets[h], key);
      var i :| 0 <= i < |r.buckets[h]| && r.buckets[h][i] == e;
      assert e in Entries(r, hash);
      assert e in Entries(t, hash);
      EntryFound(t, hash, e);
    }
  }

  // ---------------------------------------------------------------------------------------------
  // A value that looks like a record
  // ---------------------------------------------------------------------------------------------

  const FIRST_KEY: Key := [1]
  const SECOND_KEY: Key := [2]

  /** The first bytes of a record too large for the device. */
  ghost predicate Oversized(meta: seq<byte>) {
    |meta| == META_SZ && Number(meta[..2]) == METAMAGIC && 1 + ReadMeta(meta).Blks() > MAX_LBA_NUM
  }

  lemma SomeOversized() returns (meta: seq<byte>)
    ensures Oversized(meta)
  {
    var big := IndexEnt([3], 0, MAX_LBA_NUM * LBA_SIZE, 0, 0);
    PowersOf256();
    assert Pow256(5) == 256 * TWO32 && Pow256(8) >= Pow256(5);
    meta := Meta(big);
    MetaRoundTrip(big);
    MagicNumber();
  }

  /** A record that says more than the device has is not good, and ends the scan. */
  lemma OversizedRead(dev: seq<byte>, b: nat, meta: seq<byte>)
    requires Sized(dev) && 1 <= b < MAX_LBA_NUM && Oversized(meta)
    requires dev[b * LBA_SIZE..b * LBA_SIZE + META_SZ] == meta
    ensures Blocks(dev)(b) == Some(Rec(b, ReadMeta(meta), false))
    ensures Visit(Blocks(dev), b) == [Rec(b, ReadMeta(meta), false)]
  {
    var off := b * LBA_SIZE;
    assert dev[off..off + 2] == dev[off..off + META_SZ][..2];
    MagicRead(dev, b, meta[..2]);
    TooLong(dev, b, meta, ReadMeta(meta));
    VisitEnds(Blocks(dev), b, Rec(b, ReadMeta(meta), false));
  }

  lemma TooLong(dev: seq<byte>, b: nat, meta: seq<byte>, big: IndexEnt)
    requires Sized(dev) && b < MAX_LBA_NUM && b + big.Blks() > MAX_LBA_NUM
    requires |meta| == META_SZ && dev[b * LBA_SIZE..b * LBA_SIZE + META_SZ] == meta && ReadMeta(meta) == big
    ensures RecAt(dev, b) == Rec(b, big, false)
  {
  }

  lemma VisitEnds(read: nat -> Option<Rec>, b: nat, r: Rec)
    requires b < MAX_LBA_NUM && read(b) == Some(r) && b + r.ent.Blks() >= MAX_LBA_NUM
    ensures Visit(read, b) == [r]
  {
    assert Visit(read, b + r.ent.Blks()) == [];
  }

  /** A value of two blocks, the second of which begins with `meta`. */
  predicate HasMeta(val: seq<byte>, meta: seq<byte>) {
    |meta| == META_SZ && |val| == LBA_SIZE && val[DATA_SZ..] == meta
  }

  /** Every entry has the first key. */
  ghost predicate FirstOnly(s: Store, hash: Key -> nat) {
    Settled(s) && Filed(s, hash) && forall e | e in Entries(s, hash) :: e.key == FIRST_KEY
  }

  lemma FirstOnlyUnambiguous(s: Store, hash: Key -> nat, key: Key)
    requires FirstOnly(s, hash) && key in [FIRST_KEY, SECOND_KEY]
    ensures Unambiguous(s.buckets[BucketOf(hash, key)], key)
    ensures key == SECOND_KEY ==> Find(s, hash, key) == None
  {
    var h := BucketOf(hash, key);
    forall i | 0 <= i < |s.buckets[h]|
      ensures s.buckets[h][i].key == FIRST_KEY
    {
      assert s.buckets[h][i] in Entries(s, hash);
    }
    LookupBegins(s.buckets[h], key);
  }

  lemma FirstOnlyPut(s: Store, hash: Key -> nat, val: seq<byte>)
    requires FirstOnly(s, hash) && Admissible(s, hash, FIRST_KEY, val)
    ensures FirstOnly(PutNow(s, hash, FIRST_KEY, val), hash)
    ensures Find(PutNow(s, hash, FIRST_KEY, val), hash, FIRST_KEY) == Some(Placed(s, hash, FIRST_KEY, val).ent)
  {
    PutNowSettled(s, hash, FIRST_KEY, val);
    PutNowFind(s, hash, FIRST_KEY, val, FIRST_KEY);
    PutEntries(s, hash, FIRST_KEY, val, Placed(s, hash, FIRST_KEY, val).ent);
    forall e | e in Entries(PutNow(s, hash, FIRST_KEY, val), hash)
      ensures e.key == FIRST_KEY
    {
      PutEntries(s, hash, FIRST_KEY, val, e);
    }
  }

  /** The second block of the device begins with `meta`. */
  predicate MetaAtOne(dev: seq<byte>, meta: seq<byte>) {
    Sized(dev) && dev[LBA_SIZE..LBA_SIZE + META_SZ] == meta
  }

  lemma FirstExtent(list: seq<Extent>, n: nat)
    requires list != [] && list[0].count >= n
    ensures FirstFit(list, n, 0) == 0 && GetBlk(list, n) == (list[0].start, MarkUsed(list, 0, n))
  {
  }

  lemma MarkedAdmissible(s: Store, hash: Key -> nat, val: seq<byte>)
    requires FirstOnly(s, hash) && s.free == [Extent(0, MAX_LBA_NUM)] && |val| == LBA_SIZE
    requires Find(s, hash, FIRST_KEY) == None
    ensures Admissible(s, hash, FIRST_KEY, val) && NumBlks(|val|) == 2
    ensures GetBlk(s.free, 2) == (0, [Extent(2, MAX_LBA_NUM - 2)])
  {
    FirstExtent(s.free, 2);
    assert MarkUsed(s.free, 0, 2) == [Extent(2, MAX_LBA_NUM - 2)];
    FirstOnlyUnambiguous(s, hash, FIRST_KEY);
  }

  /** A value of two blocks, the second of which looks like a record ... */
  lemma PutMarked(s: Store, hash: Key -> nat, meta: seq<byte>, val: seq<byte>) returns (t: Store)
    requires FirstOnly(s, hash) && s.free == [Extent(0, MAX_LBA_NUM)] && HasMeta(val, meta)
    requires Find(s, hash, FIRST_KEY) == None
    ensures Admissible(s, hash, FIRST_KEY, val)
    ensures t == PutNow(s, hash, FIRST_KEY, val) && FirstOnly(t, hash) && MetaAtOne(t.dev, meta)
    ensures t.free == [Extent(2, MAX_LBA_NUM - 2)]
    ensures Find(t, hash, FIRST_KEY).Some? && var e := Find(t, hash, FIRST_KEY).value; e.lba == 0 && e.Blks() == 2
  {
    MarkedAdmissible(s, hash, val);
    t := PutNow(s, hash, FIRST_KEY, val);
    FirstOnlyPut(s, hash, val);
    var w := PutTakes(s, hash, FIRST_KEY, val, 2, 0, [Extent(2, MAX_LBA_NUM - 2)]);
    ImageSecondBlock(s.dev, w, meta);
  }

  /** What a put does to the free list and the device. */
  lemma PutTakes(s: Store, hash: Key -> nat, key: Key, val: seq<byte>, n: nat, base: nat, rest: seq<Extent>)
    returns (w: Write)
    requires Settled(s) && Admissible(s, hash, key, val) && n == NumBlks(|val|) && GetBlk(s.free, n) == (base, rest)
    ensures w == Placed(s, hash, key, val) && w.ent.lba == base && w.ent.Blks() == n && w.ent.key == key && w.val == val
    ensures |Image(w)| == n * LBA_SIZE && base * LBA_SIZE + n * LBA_SIZE <= |s.dev|
    ensures PutNow(s, hash, key, val).dev == WriteAt(s.dev, base * LBA_SIZE, Image(w))
    ensures Find(s, hash, key) == None ==> PutNow(s, hash, key, val).free == rest
    ensures Find(s, hash, key).Some? ==>
              var p := Find(s, hash, key).value;
              RoomAbove(rest, p.lba) && PutNow(s, hash, key, val).free == FreeBlk(rest, p.lba, p.Blks())
  {
    w := Placed(s, hash, key, val);
    PutFits(s, hash, key, val);
  }

  lemma ImageSecondBlock(dev: seq<byte>, w: Write, meta: seq<byte>)
    requires Sized(dev) && |w.ent.key| <= MAX_KEY_LEN && HasMeta(w.val, meta) && |Image(w)| == 2 * LBA_SIZE
    ensures MetaAtOne(WriteAt(dev, 0, Image(w)), meta)
  {
    var image := Image(w);
    ImageValue(w);
    Within(image, META_SZ, w.val, DATA_SZ, LBA_SIZE);
    assert w.val[DATA_SZ..LBA_SIZE] == w.val[DATA_SZ..];
    WriteAtThere(dev, 0, image, LBA_SIZE, LBA_SIZE + META_SZ);
  }

  /** ... overwritten by a short one, behind it ... */
  lemma PutShort(s: Store, hash: Key -> nat, meta: seq<byte>, val: seq<byte>) returns (t: Store)
    requires FirstOnly(s, hash) && MetaAtOne(s.dev, meta) && s.free == [Extent(2, MAX_LBA_NUM - 2)] && |val| == 1
    requires Find(s, hash, FIRST_KEY).Some? && var e := Find(s, hash, FIRST_KEY).value; e.lba == 0 && e.Blks() == 2
    ensures Admissible(s, hash, FIRST_KEY, val) && t == PutNow(s, hash, FIRST_KEY, val)
    ensures FirstOnly(t, hash) && MetaAtOne(t.dev, meta) && t.free == [Extent(0, 2), Extent(3, MAX_LBA_NUM - 3)]
    ensures Find(t, hash, FIRST_KEY).Some? && Find(t, hash, FIRST_KEY).value.key == FIRST_KEY
  {
    var rest := [Extent(3, MAX_LBA_NUM - 3)];
    FirstExtent(s.free, 1);
    assert GetBlk(s.free, 1).1 == rest && FirstAbove(rest, 0, 0) == 0 && FreeBlk(rest, 0, 2) == [Extent(0, 2)] + rest;
    FirstOnlyUnambiguous(s, hash, FIRST_KEY);
    t := PutNow(s, hash, FIRST_KEY, val);
    FirstOnlyPut(s, hash, val);
    var w := PutTakes(s, hash, FIRST_KEY, val, 1, 2, rest);
    WriteAtElsewhere(s.dev, 2 * LBA_SIZE, Image(w), LBA_SIZE, LBA_SIZE + META_SZ);
  }

  /** ... and its first block used by another key. */
  lemma PutOther(s: Store, hash: Key -> nat, meta: seq<byte>, val: seq<byte>) returns (t: Store, e: IndexEnt)
    requires FirstOnly(s, hash) && MetaAtOne(s.dev, meta) && s.free == [Extent(0, 2), Extent(3, MAX_LBA_NUM - 3)]
    requires Find(s, hash, FIRST_KEY).Some? && |val| == 1
    ensures Admissible(s, hash, SECOND_KEY, val) && t == PutNow(s, hash, SECOND_KEY, val) && Settled(t)
    ensures MetaAtOne(t.dev, meta) && Find(t, hash, FIRST_KEY) == Find(s, hash, FIRST_KEY)
    ensures e.key == SECOND_KEY && e.Blks() == 1 && e.lba == 0 && Blocks(t.dev)(0) == Some(Rec(0, e, true))
  {
    FirstExtent(s.free, 1);
    FirstOnlyUnambiguous(s, hash, SECOND_KEY);
    t := PutNow(s, hash, SECOND_KEY, val);
    PutNowSettled(s, hash, SECOND_KEY, val);
    PutNowFind(s, hash, SECOND_KEY, val, FIRST_KEY);
    PutOnDevice(s, hash, SECOND_KEY, val);
    var w := PutTakes(s, hash, SECOND_KEY, val, 1, 0, GetBlk(s.free, 1).1);
    WriteAtElsewhere(s.dev, 0, Image(w), LBA_SIZE, LBA_SIZE + META_SZ);
    e := w.ent;
    assert Recorded(Blocks(t.dev), e);
  }

  /** Of such a device the scan sees the first block only. */
  lemma ScanStops(dev: seq<byte>, hash: Key -> nat, e: IndexEnt, meta: seq<byte>)
    requires Oversized(meta) && MetaAtOne(dev, meta) && e.key == SECOND_KEY && e.lba == 0 && e.Blks() == 1
    requires Blocks(dev)(0) == Some(Rec(0, e, true))
    ensures Scannable(dev, hash, Blocks(dev))
    ensures var r := Scanned(dev, hash, Blocks(dev)); |r.buckets| == MAX_ENTRIES && Find(r, hash, FIRST_KEY) == None
  {
    var first, second := Rec(0, e, true), Rec(1, ReadMeta(meta), false);
    OversizedRead(dev, 1, meta);
    VisitTwo(Blocks(dev), first, second);
    ReplayTwo(Fresh(dev), hash, first, second);
  }

  lemma VisitTwo(read: nat -> Option<Rec>, first: Rec, second: Rec)
    requires read(0) == Some(first) && first.ent.Blks() == 1 && Visit(read, 1) == [second]
    ensures Visit(read, 0) == [first, second]
  {
    assert Visit(read, 0) == [first] + Visit(read, 1);
  }

  lemma NotTheFirst(e: IndexEnt)
    requires e.key == SECOND_KEY
    ensures Lookup([e], FIRST_KEY) == None
  {
    assert FIRST_KEY[0] != SECOND_KEY[0];
    LookupBegins([e], FIRST_KEY);
  }

  lemma ReplayTwo(s: Store, hash: Key -> nat, first: Rec, second: Rec)
    requires s == Fresh(s.dev) && first.ent.key == SECOND_KEY && first.ent.lba == 0 && first.ent.Blks() == 1
    requires first.good && !second.good
    ensures Replayable(s, hash, [first, second])
    ensures var r := Replay(s, hash, [first, second]); |r.buckets| == MAX_ENTRIES && Find(r, hash, FIRST_KEY) == None
  {
    var recs, e := [first, second], first.ent;
    var h, g, rest := BucketOf(hash, SECOND_KEY), BucketOf(hash, FIRST_KEY), recs[1..];
    assert s.buckets[h] == [] && Find(s, hash, SECOND_KEY) == None;
    forall k | InRange(k, 0, 1)
      ensures Free(s.free, k)
    {
      FreeOne(Extent(0, MAX_LBA_NUM), k);
    }
    var t := Take(s, hash, first);
    assert t.buckets == s.buckets[h := [e]];
    assert rest == [second] && rest[1..] == [];
    assert Take(t, hash, second) == t && Replay(t, hash, rest) == t;
    assert Replay(s, hash, recs) == t;
    NotTheFirst(e);
    assert t.buckets[g] == if g == h then [e] else [];
  }

  /** The three puts. */
  ghost predicate Trap(puts: seq<KeyVal>, meta: seq<byte>) {
    && |puts| == 3 && HasMeta(puts[0].val, meta) && |puts[1].val| == |puts[2].val| == 1
    && puts[0].key == puts[1].key == FIRST_KEY && puts[2].key == SECOND_KEY
  }

  lemma TrapRun(s: Store, hash: Key -> nat, meta: seq<byte>, puts: seq<KeyVal>) returns (t: Store, e: IndexEnt)
    requires FirstOnly(s, hash) && s.free == [Extent(0, MAX_LBA_NUM)] && Find(s, hash, FIRST_KEY) == None
    requires Trap(puts, meta)
    ensures AllAdmissible(s, hash, puts) && t == PutAll(s, hash, puts)
    ensures Stored(t, hash, FIRST_KEY) && MetaAtOne(t.dev, meta)
    ensures e.key == SECOND_KEY && e.Blks() == 1 && e.lba == 0 && Blocks(t.dev)(0) == Some(Rec(0, e, true))
  {
    var rest := puts[1..];
    assert rest == [puts[1], puts[2]];
    var s1 := PutMarked(s, hash, meta, puts[0].val);
    t, e := TrapRest(s1, hash, meta, puts[1], puts[2]);
    PutAllStep(s, hash, puts, rest, s1);
  }

  lemma OnePut(s: Store, hash: Key -> nat, p: KeyVal, s1: Store)
    requires Settled(s) && Admissible(s, hash, p.key, p.val) && s1 == PutNow(s, hash, p.key, p.val) && Settled(s1)
    ensures AllAdmissible(s, hash, [p]) && PutAll(s, hash, [p]) == s1
  {
    assert [p][1..] == [];
    PutAllStep(s, hash, [p], [], s1);
  }

  lemma TrapRest(s: Store, hash: Key -> nat, meta: seq<byte>, p: KeyVal, q: KeyVal) returns (t: Store, e: IndexEnt)
    requires FirstOnly(s, hash) && MetaAtOne(s.dev, meta) && s.free == [Extent(2, MAX_LBA_NUM - 2)]
    requires Find(s, hash, FIRST_KEY).Some? && var e := Find(s, hash, FIRST_KEY).value; e.lba == 0 && e.Blks() == 2
    requires p.key == FIRST_KEY && q.key == SECOND_KEY && |p.val| == |q.val| == 1
    ensures AllAdmissible(s, hash, [p, q]) && t == PutAll(s, hash, [p, q])
    ensures Stored(t, hash, FIRST_KEY) && MetaAtOne(t.dev, meta)
    ensures e.key == SECOND_KEY && e.Blks() == 1 && e.lba == 0 && Blocks(t.dev)(0) == Some(Rec(0, e, true))
  {
    var s1 := PutShort(s, hash, meta, p.val);
    t, e := PutOther(s1, hash, meta, q.val);
    OnePut(s1, hash, q, t);
    assert [p, q][1..] == [q];
    PutAllStep(s, hash, [p, q], [q], s1);
  }

  /** From a new device: three puts, one of them overwriting a value whose second block looks like a record, and
      after the restart a key is gone. */
  lemma MarkLoses(dev: seq<byte>, hash: Key -> nat, meta: seq<byte>, puts: seq<KeyVal>) returns (t: Store)
    requires Blank(dev) && Oversized(meta) && Trap(puts, meta)
    ensures Settled(Fresh(dev)) && AllAdmissible(Fresh(dev), hash, puts) && t == PutAll(Fresh(dev), hash, puts)
    ensures Sized(t.dev) && Scannable(t.dev, hash, Blocks(t.dev)) && Stored(t, hash, FIRST_KEY)
    ensures |Restarted(t, hash).buckets| == MAX_ENTRIES && Find(Restarted(t, hash), hash, FIRST_KEY) == None
    ensures !Recovers(t, hash)
  {
    BlankDurable(dev, hash, iset{});
    BlankEntries(dev, hash);
    var e;
    t, e := TrapRun(Fresh(dev), hash, meta, puts);
    ScanStops(t.dev, hash, e, meta);
    Gone(t, hash);
  }

  lemma Gone(t: Store, hash: Key -> nat)
    requires Settled(t) && Sized(t.dev) && Scannable(t.dev, hash, Blocks(t.dev)) && Stored(t, hash, FIRST_KEY)
    requires |Restarted(t, hash).buckets| == MAX_ENTRIES && Find(Restarted(t, hash), hash, FIRST_KEY) == None
    ensures !Recovers(t, hash)
  {
    var r, e, h := Restarted(t, hash), Find(t, hash, FIRST_KEY).value, BucketOf(hash, FIRST_KEY);
    FoundEntry(t, hash, FIRST_KEY);
    if e in r.buckets[h] {
      MemberMatches(r.buckets[h], e);
    }
  }

  lemma {:induction false} MemberMatches(chain: seq<IndexEnt>, e: IndexEnt)
    requires e in chain
    ensures Lookup(chain, e.key).Some?
    decreases |chain|
  {
    if chain[0] != e {
      assert chain == [chain[0]] + chain[1..];
      MemberMatches(chain[1..], e);
    }
  }

  // ---------------------------------------------------------------------------------------------
  // Exactly
  // ---------------------------------------------------------------------------------------------

  /** Puts that can be completed one after the other on a new device, none with an empty value, each key at most
      `limit` times; unless `marks`, no value that is overwritten looks like a record where one of its blocks
      begins. */
  ghost predicate Workload(dev: seq<byte>, hash: Key -> nat, puts: seq<KeyVal>, limit: nat, marks: bool) {
    && Settled(Fresh(dev)) && AllAdmissible(Fresh(dev), hash, puts)
    && NoneEmpty(puts) && (marks || Overwritable(puts))
    && (forall k :: Count(puts, k) <= limit)
  }

  ghost predicate AlwaysRecovers(dev: seq<byte>, hash: Key -> nat, limit: nat, marks: bool) {
    forall puts | Workload(dev, hash, puts, limit, marks) :: Recovers(PutAll(Fresh(dev), hash, puts), hash)
  }

  lemma {:induction false} CountAtLeast(puts: seq<KeyVal>, i: nat, j: nat)
    requires i < j < |puts| && puts[i].key == puts[j].key
    ensures Count(puts, puts[i].key) >= 2
    decreases i
  {
    var rest := puts[1..];
    assert rest[j - 1] == puts[j];
    if i == 0 {
      CountOne(rest, j - 1);
    } else {
      assert rest[i - 1] == puts[i];
      CountAtLeast(rest, i - 1, j - 1);
    }
  }

  lemma {:induction false} CountOne(puts: seq<KeyVal>, i: nat)
    requires i < |puts|
    ensures Count(puts, puts[i].key) >= 1
    decreases i
  {
    if i > 0 {
      assert puts[1..][i - 1] == puts[i];
      CountOne(puts[1..], i - 1);
    }
  }

  lemma OnceOverwritable(puts: seq<KeyVal>)
    requires forall k :: Count(puts, k) <= 1
    ensures Overwritable(puts)
  {
    forall i, j | 0 <= i < j < |puts|
      ensures puts[i].key != puts[j].key
    {
      if puts[i].key == puts[j].key {
        CountAtLeast(puts, i, j);
      }
    }
  }

  lemma CountThree(p: KeyVal, q: KeyVal, r: KeyVal, k: Key)
    ensures Count([p, q, r], k) ==
              (if p.key == k then 1 else 0) + (if q.key == k then 1 else 0) + if r.key == k then 1 else 0
  {
    assert [p, q, r][1..] == [q, r] && [q, r][1..] == [r] && [r][1..] == [];
    assert Count([r], k) == if r.key == k then 1 else 0;
    assert Count([q, r], k) == (if q.key == k then 1 else 0) + Count([r], k);
  }

  /** For a bound on how often a key is put, and with or without values that look like records: a restart always
      rebuilds everything if and only if the bound is at most 65535 and such values cannot be overwritten. */
  lemma RecoversExactly(dev: seq<byte>, hash: Key -> nat, limit: nat, marks: bool)
    requires Blank(dev)
    ensures AlwaysRecovers(dev, hash, limit, marks) <==> limit <= 65535 && (marks ==> limit <= 1)
  {
    if limit <= 65535 && (marks ==> limit <= 1) {
      forall puts | Workload(dev, hash, puts, limit, marks)
        ensures Recovers(PutAll(Fresh(dev), hash, puts), hash)
      {
        if marks {
          OnceOverwritable(puts);
        }
        CrashLosesNothing(dev, hash, puts);
      }
    } else if limit > 65535 {
      var p := SomePut();
      WrapBreaks(dev, hash, p, limit, marks);
    } else {
      var meta := SomeOversized();
      var puts := SomeTrap(meta);
      MarksBreak(dev, hash, meta, puts, limit);
    }
  }

  lemma SomePut() returns (p: KeyVal)
    ensures Short(p)
  {
    p := KeyVal([1], [1]);
  }

  lemma WrapBreaks(dev: seq<byte>, hash: Key -> nat, p: KeyVal, limit: nat, marks: bool)
    requires Blank(dev) && Short(p) && limit >= 65536
    ensures !AlwaysRecovers(dev, hash, limit, marks)
  {
    WrapLoses(dev, hash, p);
    SameFine(65536, p);
    forall k
      ensures Count(Repeat(65536, p), k) <= limit
    {
      CountSame(65536, p, k);
    }
    assert Workload(dev, hash, Repeat(65536, p), limit, marks);
  }

  lemma SomeTrap(meta: seq<byte>) returns (puts: seq<KeyVal>)
    requires |meta| == META_SZ
    ensures Trap(puts, meta)
  {
    var val := Zeros(DATA_SZ) + meta;
    puts := [KeyVal(FIRST_KEY, val), KeyVal(FIRST_KEY, [1]), KeyVal(SECOND_KEY, [1])];
  }

  lemma MarksBreak(dev: seq<byte>, hash: Key -> nat, meta: seq<byte>, puts: seq<KeyVal>, limit: nat)
    requires Blank(dev) && Oversized(meta) && Trap(puts, meta) && limit >= 2
    ensures !AlwaysRecovers(dev, hash, limit, true)
  {
    var t := MarkLoses(dev, hash, meta, puts);
    TrapFine(puts, meta);
    assert Workload(dev, hash, puts, limit, true);
  }

  lemma TrapFine(puts: seq<KeyVal>, meta: seq<byte>)
    requires Trap(puts, meta)
    ensures NoneEmpty(puts) && forall k :: Count(puts, k) <= 2
  {
    assert FIRST_KEY[0] != SECOND_KEY[0] && puts == [puts[0], puts[1], puts[2]];
    forall k
      ensures Count(puts, k) <= 2
    {
      CountThree(puts[0], puts[1], puts[2], k);
    }
  }
}
