/** The store over any run of puts, flushes and completions (dp/core/io.c), with batches of any length.

    `IndexRefines` is the result: whatever the batches, a key is found exactly when a put of it has been
    completed, and what is found is the entry of the last one completed; what waits is what was put since. */
module KvRuns {
  import opened Common
  import opened Words
  import opened BlkIndex
  import opened KvStore
  import opened Recovery
  import Crc32

  /** The puts of a run: those that wait, and those completed, each in order. */
  datatype Book = Book(waiting: seq<KeyVal>, completed: seq<KeyVal>)

  function Enter(b: Book, e: Event): Book {
    match e
    case PutEvent(key, val) => b.(waiting := b.waiting + [KeyVal(key, val)])
    case FlushEvent => b
    case CompleteEvent => Book([], b.completed + b.waiting)
  }

  function Keep(b: Book, events: seq<Event>): Book
    decreases |events|
  {
    if events == [] then b else Keep(Enter(b, events[0]), events[1..])
  }

  /** An entry that was made for a put, with `sum` the checksum. */
  predicate EntryFor(sum: seq<byte> -> nat, e: IndexEnt, p: KeyVal) {
    e.key == p.key && e.valLen == |p.val| && e.crc == sum(p.val)
  }

  /** The batch is that of these puts. */
  ghost predicate BatchFor(sum: seq<byte> -> nat, batch: seq<Write>, puts: seq<KeyVal>) {
    |batch| == |puts| && forall i | 0 <= i < |batch| :: WriteFor(sum, batch[i], puts[i])
  }

  predicate WriteFor(sum: seq<byte> -> nat, w: Write, p: KeyVal) {
    w.val == p.val && EntryFor(sum, w.ent, p)
  }

  /** What is found of a key is the entry of the last of these puts, if one is of that key. */
  ghost predicate FoundFor(sum: seq<byte> -> nat, found: Option<IndexEnt>, puts: seq<KeyVal>, k: Key) {
    && (found.None? <==> LastValue(puts, k, None).None?)
    && (found.Some? ==> EntryFor(sum, found.value, KeyVal(k, LastValue(puts, k, None).value)))
  }

  // ---------------------------------------------------------------------------------------------
  // One step
  // ---------------------------------------------------------------------------------------------

  lemma {:induction false} AssignFor(sum: seq<byte> -> nat, batch: seq<Write>, lba: int, puts: seq<KeyVal>)
    requires BatchFor(sum, batch, puts)
    ensures BatchFor(sum, Assign(batch, lba), puts)
    decreases |batch|
  {
    if batch != [] {
      var rest, left := batch[1..], puts[1..];
      forall i | 0 <= i < |rest|
        ensures WriteFor(sum, rest[i], left[i])
      {
        assert WriteFor(sum, batch[i + 1], puts[i + 1]);
      }
      var next := lba + batch[0].ent.Blks();
      AssignFor(sum, rest, next, left);
      AssignedFirst(sum, batch, lba, puts, Assign(rest, next), left);
    }
  }

  lemma AssignedFirst(sum: seq<byte> -> nat, batch: seq<Write>, lba: int, puts: seq<KeyVal>, rest: seq<Write>,
                      left: seq<KeyVal>)
    requires batch != [] && |puts| == |batch| && WriteFor(sum, batch[0], puts[0]) && left == puts[1..]
    requires rest == Assign(batch[1..], lba + batch[0].ent.Blks()) && BatchFor(sum, rest, left)
    ensures BatchFor(sum, Assign(batch, lba), puts)
  {
    var r := Assign(batch, lba);
    forall i | 0 <= i < |r|
      ensures WriteFor(sum, r[i], puts[i])
    {
      if i > 0 {
        assert r[i] == rest[i - 1] && puts[i] == left[i - 1];
        assert WriteFor(sum, rest[i - 1], left[i - 1]);
      }
    }
  }

  /** update_index changes what its own key finds and nothing else. */
  lemma UpdateFinds(s: Store, hash: Key -> nat, e: IndexEnt, keys: iset<Key>, k: Key)
    requires Drawn(s, hash, keys) && Distinctive(hash, keys) && e.key in keys && Updatable(s, hash, e)
    requires forall a | a in keys :: Clear(hash, k, a)
    ensures |Update(s, hash, e).buckets| == MAX_ENTRIES
    ensures Find(Update(s, hash, e), hash, k) == if e.key == k then Some(e) else Find(s, hash, k)
  {
    DrawnUnambiguous(s, hash, keys, e.key);
    assert Clear(hash, k, e.key);
    if BucketOf(hash, k) == BucketOf(hash, e.key) {
      UpdateThenLookup(s.buckets[BucketOf(hash, k)], e, k);
    }
  }

  lemma UpdateDrawn(s: Store, hash: Key -> nat, e: IndexEnt, keys: iset<Key>)
    requires Drawn(s, hash, keys) && Distinctive(hash, keys) && e.key in keys && Updatable(s, hash, e)
    ensures Drawn(Update(s, hash, e), hash, keys)
  {
    var h := BucketOf(hash, e.key);
    var chain := s.buckets[h];
    DrawnUnambiguous(s, hash, keys, e.key);
    UpdatePrefixFree(chain, e);
    forall i | 0 <= i < |UpdateChain(chain, e)|
      ensures DrawnEnt(hash, keys, h, UpdateChain(chain, e)[i])
    {
      UpdateChainKeys(chain, e, i);
    }
  }

  ghost predicate KeysIn(puts: seq<KeyVal>, keys: iset<Key>) {
    forall i | 0 <= i < |puts| :: puts[i].key in keys
  }

  lemma FoundSnoc(sum: seq<byte> -> nat, found: Option<IndexEnt>, puts: seq<KeyVal>, k: Key, e: IndexEnt, p: KeyVal,
                  all: seq<KeyVal>)
    requires FoundFor(sum, found, puts, k) && EntryFor(sum, e, p) && all == puts + [p]
    ensures FoundFor(sum, if e.key == k then Some(e) else found, all, k)
  {
    assert all[..|all| - 1] == puts;
  }

  /** One turn of the loop of io_write_cb. */
  lemma UpdateAgrees(sum: seq<byte> -> nat, s: Store, hash: Key -> nat, e: IndexEnt, p: KeyVal, before: seq<KeyVal>,
                     keys: iset<Key>, k: Key, now: seq<KeyVal>, r: Store)
    requires Drawn(s, hash, keys) && Distinctive(hash, keys) && Updatable(s, hash, e) && EntryFor(sum, e, p)
    requires p.key in keys && (forall a | a in keys :: Clear(hash, k, a))
    requires FoundFor(sum, Find(s, hash, k), before, k) && now == before + [p] && r == Update(s, hash, e)
    ensures Drawn(r, hash, keys) && FoundFor(sum, Find(r, hash, k), now, k)
  {
    UpdateDrawn(s, hash, e, keys);
    UpdateFinds(s, hash, e, keys, k);
    FoundSnoc(sum, Find(s, hash, k), before, k, e, p, now);
  }

  lemma OneByOne(before: seq<KeyVal>, puts: seq<KeyVal>, all: seq<KeyVal>)
    requires puts != [] && all == before + puts
    ensures all == (before + [puts[0]]) + puts[1..]
  {
  }

  /** The loop of io_write_cb. */
  lemma {:induction false} UpdateAllFinds(sum: seq<byte> -> nat, s: Store, hash: Key -> nat, ws: seq<Write>,
                                          puts: seq<KeyVal>, before: seq<KeyVal>, keys: iset<Key>, k: Key,
                                          all: seq<KeyVal>)
    requires Drawn(s, hash, keys) && Distinctive(hash, keys) && Completable(s, hash, ws)
    requires BatchFor(sum, ws, puts) && KeysIn(puts, keys) && (forall a | a in keys :: Clear(hash, k, a))
    requires FoundFor(sum, Find(s, hash, k), before, k) && all == before + puts
    ensures var r := UpdateAll(s, hash, ws); Drawn(r, hash, keys) && FoundFor(sum, Find(r, hash, k), all, k)
    decreases |ws|
  {
    if ws == [] {
      assert all == before;
    } else {
      var e, rest, left := ws[0].ent, ws[1..], puts[1..];
      var s1, now := Update(s, hash, e), before + [puts[0]];
      assert WriteFor(sum, ws[0], puts[0]);
      UpdateAgrees(sum, s, hash, e, puts[0], before, keys, k, now, s1);
      BatchRest(sum, ws, puts, rest, left, keys);
      OneByOne(before, puts, all);
      UpdateAllFinds(sum, s1, hash, rest, left, now, keys, k, all);
    }
  }

  lemma BatchRest(sum: seq<byte> -> nat, ws: seq<Write>, puts: seq<KeyVal>, rest: seq<Write>, left: seq<KeyVal>,
                  keys: iset<Key>)
    requires BatchFor(sum, ws, puts) && KeysIn(puts, keys) && ws != [] && rest == ws[1..] && left == puts[1..]
    ensures BatchFor(sum, rest, left) && KeysIn(left, keys)
  {
    forall i | 0 <= i < |rest|
      ensures WriteFor(sum, rest[i], left[i])
    {
      assert WriteFor(sum, ws[i + 1], puts[i + 1]);
    }
  }

  // ---------------------------------------------------------------------------------------------
  // Runs
  // ---------------------------------------------------------------------------------------------

  /** The store is what the book says. */
  ghost predicate Agrees(sum: seq<byte> -> nat, s: Store, hash: Key -> nat, keys: iset<Key>, k: Key, b: Book) {
    && Drawn(s, hash, keys) && KeysIn(b.waiting, keys) && BatchFor(sum, s.batch, b.waiting)
    && FoundFor(sum, Find(s, hash, k), b.completed, k)
  }

  lemma PutAgrees(sum: seq<byte> -> nat, s: Store, hash: Key -> nat, keys: iset<Key>, k: Key, b: Book, key: Key,
                  val: seq<byte>)
    requires Agrees(sum, s, hash, keys, k, b) && key in keys && sum(val) == Crc32.Crc(val)
    ensures Agrees(sum, Put(s, hash, key, val), hash, keys, k, Enter(b, PutEvent(key, val)))
  {
    var r, puts := Put(s, hash, key, val), b.waiting + [KeyVal(key, val)];
    forall i | 0 <= i < |r.batch|
      ensures WriteFor(sum, r.batch[i], puts[i])
    {
      if i < |s.batch| {
        assert WriteFor(sum, s.batch[i], b.waiting[i]);
      }
    }
  }

  lemma FlushAgrees(sum: seq<byte> -> nat, s: Store, hash: Key -> nat, keys: iset<Key>, k: Key, b: Book)
    requires Agrees(sum, s, hash, keys, k, b) && Flushable(s)
    ensures Agrees(sum, Flush(s), hash, keys, k, b)
  {
    AssignFor(sum, s.batch, FlushBase(s), b.waiting);
  }

  lemma CompleteAgrees(sum: seq<byte> -> nat, s: Store, hash: Key -> nat, keys: iset<Key>, k: Key, b: Book)
    requires Agrees(sum, s, hash, keys, k, b) && Completable(s, hash, s.batch)
    requires Distinctive(hash, keys) && (forall a | a in keys :: Clear(hash, k, a))
    ensures Agrees(sum, Complete(s, hash), hash, keys, k, Book([], b.completed + b.waiting))
  {
    UpdateAllFinds(sum, s, hash, s.batch, b.waiting, b.completed, keys, k, b.completed + b.waiting);
  }

  lemma ApplyAgrees(sum: seq<byte> -> nat, s: Store, hash: Key -> nat, keys: iset<Key>, k: Key, b: Book, e: Event,
                    r: Store)
    requires sum == Crc32.Crc && Agrees(sum, s, hash, keys, k, b)
    requires Enabled(s, hash, e) && (e.PutEvent? ==> e.key in keys) && r == Apply(s, hash, e)
    requires Distinctive(hash, keys) && (forall a | a in keys :: Clear(hash, k, a))
    ensures Agrees(sum, r, hash, keys, k, Enter(b, e))
  {
    match e
    case PutEvent(key, val) => PutAgrees(sum, s, hash, keys, k, b, key, val);
    case FlushEvent => FlushAgrees(sum, s, hash, keys, k, b);
    case CompleteEvent => CompleteAgrees(sum, s, hash, keys, k, b);
  }

  /** Every key put is one of `keys`. */
  ghost predicate PutsIn(events: seq<Event>, keys: iset<Key>) {
    forall i | 0 <= i < |events| && events[i].PutEvent? :: events[i].key in keys
  }

  lemma PutsRest(events: seq<Event>, rest: seq<Event>, keys: iset<Key>)
    requires PutsIn(events, keys) && events != [] && rest == events[1..]
    ensures PutsIn(rest, keys) && (events[0].PutEvent? ==> events[0].key in keys)
  {
    assert forall i | 0 <= i < |rest| :: rest[i] == events[i + 1];
  }

  lemma {:induction false} ExecAgrees(sum: seq<byte> -> nat, s: Store, hash: Key -> nat, keys: iset<Key>, k: Key,
                                      b: Book, events: seq<Event>)
    requires sum == Crc32.Crc && Agrees(sum, s, hash, keys, k, b)
    requires Legal(s, hash, events) && PutsIn(events, keys)
    requires Distinctive(hash, keys) && (forall a | a in keys :: Clear(hash, k, a))
    ensures Agrees(sum, Exec(s, hash, events), hash, keys, k, Keep(b, events))
    decreases |events|
  {
    if events != [] {
      var e, rest := events[0], events[1..];
      var r, b1 := Apply(s, hash, e), Enter(b, e);
      PutsRest(events, rest, keys);
      ApplyAgrees(sum, s, hash, keys, k, b, e, r);
      ExecAgrees(sum, r, hash, keys, k, b1, rest);
    }
  }

  /** Over any run of a fresh store, with keys that do not begin alike in one bucket: the batch has exactly
      the puts since the last completion, in order; a key is found exactly when a put of it was completed, and
      then with the length and the checksum of the last one. */
  lemma IndexRefines(dev: seq<byte>, hash: Key -> nat, keys: iset<Key>, k: Key, events: seq<Event>)
    requires Legal(Fresh(dev), hash, events) && PutsIn(events, keys)
    requires Distinctive(hash, keys) && (forall a | a in keys :: Clear(hash, k, a))
    ensures var s, b := Exec(Fresh(dev), hash, events), Keep(Book([], []), events);
      && |s.buckets| == MAX_ENTRIES
      && BatchFor(Crc32.Crc, s.batch, b.waiting) && FoundFor(Crc32.Crc, Find(s, hash, k), b.completed, k)
  {
    FreshDrawn(dev, hash, keys, k);
    ExecAgrees(Crc32.Crc, Fresh(dev), hash, keys, k, Book([], []), events);
  }
}
