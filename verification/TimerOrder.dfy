/** The order in which handlers run (dp/core/timer.c): a bucket is a list that grows at its head, so of the
    timers of one bucket the last one inserted runs first, and every cascade turns the rest around.

    `LastAddedFirst` and `ReinsertOrder` are the results. */
module TimerOrder {
  import opened TimerWheels

  /** The handlers of some timers run, one after the other. */
  function Firings(ts: seq<Timer>, now: nat): seq<Firing> {
    if ts == [] then [] else [Firing(ts[0], now)] + Firings(ts[1..], now)
  }

  function Backwards(ts: seq<Timer>): seq<Timer> {
    if ts == [] then [] else Backwards(ts[1..]) + [ts[0]]
  }

  /** Of some timers, those that have expired, in their order ... */
  function Due(ts: seq<Timer>, now: nat): seq<Timer> {
    if ts == [] then [] else if ts[0].expires <= now then [ts[0]] + Due(ts[1..], now) else Due(ts[1..], now)
  }

  /** ... and of the others those that belong in bucket k. */
  function Later(ts: seq<Timer>, now: nat, k: nat): seq<Timer> {
    if ts == [] then []
    else if BelongsIn(ts[0], now, k) then [ts[0]] + Later(ts[1..], now, k)
    else Later(ts[1..], now, k)
  }

  predicate BelongsIn(t: Timer, now: nat, k: nat) {
    now < t.expires && InRange(t, now) && Bucket(t, now) == k
  }

  lemma {:induction false} FireAllOrder(s: State, ts: seq<Timer>)
    ensures FireAll(s, ts).fired == s.fired + Firings(ts, s.now)
    decreases |ts|
  {
    if ts != [] {
      FireAllOrder(Fire(s, ts[0]), ts[1..]);
      Joined(s.fired, [Firing(ts[0], s.now)], Firings(ts[1..], s.now));
    }
  }

  lemma Joined<T>(a: seq<T>, b: seq<T>, c: seq<T>)
    ensures (a + b) + c == a + (b + c)
  {
  }

  /** One insertion, seen from bucket k. */
  lemma InsertOrder(s: State, t: Timer, k: nat)
    requires Bounded(s) && InRange(t, s.now) && s.now < t.expires && k < |s.buckets|
    ensures Insert(s, t).buckets[k] == if BelongsIn(t, s.now, k) then [t] + s.buckets[k] else s.buckets[k]
  {
  }

  /** A cascade runs the handlers of the expired timers in the order of the list, and the others of each
      bucket follow one another there in the opposite order, in front of what was there before. */
  lemma {:induction false} ReinsertOrder(s: State, ts: seq<Timer>, k: nat)
    requires Bounded(s) && AllInRange(ts, s.now) && k < |s.buckets|
    ensures var r := Reinsert(s, ts);
      && |r.buckets| == |s.buckets| && r.buckets[k] == Backwards(Later(ts, s.now, k)) + s.buckets[k]
      && r.fired == s.fired + Firings(Due(ts, s.now), s.now)
    decreases |ts|
  {
    if ts != [] {
      var t, rest := ts[0], ts[1..];
      if t.expires <= s.now {
        ReinsertOrder(Fire(s, t), rest, k);
        Joined(s.fired, [Firing(t, s.now)], Firings(Due(rest, s.now), s.now));
        assert ([t] + Due(rest, s.now))[1..] == Due(rest, s.now);
      } else {
        InsertOrder(s, t, k);
        ReinsertOrder(Insert(s, t), rest, k);
        InFront(ts, s.now, k, s.buckets[k], Insert(s, t).buckets[k]);
      }
    }
  }

  lemma InFront(ts: seq<Timer>, now: nat, k: nat, before: seq<Timer>, after: seq<Timer>)
    requires ts != [] && after == if BelongsIn(ts[0], now, k) then [ts[0]] + before else before
    ensures Backwards(Later(ts[1..], now, k)) + after == Backwards(Later(ts, now, k)) + before
  {
    var rest := Later(ts[1..], now, k);
    if BelongsIn(ts[0], now, k) {
      assert ([ts[0]] + rest)[1..] == rest;
      Joined(Backwards(rest), [ts[0]], before);
    }
  }

  /** Some timers are added. */
  function Adds(ts: seq<Timer>): seq<Event> {
    if ts == [] then [] else [Add(ts[0])] + Adds(ts[1..])
  }

  lemma {:induction false} AddsOrder(s: State, ts: seq<Timer>, limit: nat, k: nat)
    requires Bounded(s) && limit <= MAX_DELAY_US && Legal(s, Adds(ts), limit) && k < |s.buckets|
    ensures var r := Exec(s, Adds(ts), limit);
      && r.now == s.now && r.pos == s.pos && r.fired == s.fired && |r.buckets| == |s.buckets|
      && r.buckets[k] == Backwards(Later(ts, s.now, k)) + s.buckets[k]
    decreases |ts|
  {
    if ts != [] {
      var s1 := Insert(s, ts[0]);
      InsertOrder(s, ts[0], k);
      assert Adds(ts)[1..] == Adds(ts[1..]);
      AddsOrder(s1, ts[1..], limit, k);
      InFront(ts, s.now, k, s.buckets[k], s1.buckets[k]);
    }
  }

  /** A turn of the loop without a cascade. */
  lemma TickOrder(s: State, pos: nat)
    requires Bounded(s) && SlotOf(pos, 0) % WHEEL_SIZE != 0
    ensures Tick(s, pos).fired == s.fired + Firings(s.buckets[BucketAt(pos, 0)], s.now)
  {
    FireAllOrder(Drain(s, BucketAt(pos, 0)), s.buckets[BucketAt(pos, 0)]);
  }

  /** Timers are added to any state and then the wheel is run for one turn without a cascade: of those that
      belong in the bucket of that turn the handlers run in the opposite order of adding, and then those of
      the timers that were there before, and no others. */
  lemma LastAddedFirst(s: State, ts: seq<Timer>, clock: nat, limit: nat)
    requires Bounded(s) && limit <= MAX_DELAY_US && Legal(s, Adds(ts), limit)
    requires s.now <= clock && s.pos <= clock < s.pos + MIN_DELAY_US && SlotOf(s.pos, 0) % WHEEL_SIZE != 0
    ensures var added, k := Exec(s, Adds(ts), limit), BucketAt(s.pos, 0);
      && added.now <= clock
      && Run(added, clock).fired == s.fired + Firings(Backwards(Later(ts, s.now, k)) + s.buckets[k], clock)
  {
    var k := BucketAt(s.pos, 0);
    AddsOrder(s, ts, limit, k);
    var started := Exec(s, Adds(ts), limit).(now := clock);
    TickOrder(started, s.pos);
    RunFromTurn(started, s.pos);
  }
}
