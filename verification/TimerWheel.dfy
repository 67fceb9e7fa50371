/** The hierarchical timing wheel of dp/core/timer.c: three wheels of 256 buckets.

    `State` and the functions on it give the meaning of every operation; the class `TimerWheel`
    is the in-place program, proved equal to them step by step.  The two main results are
    `Conservation` (no timer is lost, duplicated or late) and `SafeExactly` (when no handler can
    ever run early). */
module TimerWheels {
  import opened Words

  const WHEEL_COUNT := 3
  const WHEEL_SIZE := 256
  const MIN_DELAY_US := 16
  const MAX_DELAY_US := 268435456

  datatype Timer = Timer(id: int, expires: nat)

  /** One handler invocation and the cached clock it saw. */
  datatype Firing = Firing(timer: Timer, now: nat)

  /** `buckets[256 * wheel + offset]` is the list hanging off wheels[wheel][offset]; `fired` is the
      log of handler invocations. */
  datatype State = State(now: nat, pos: nat, buckets: seq<seq<Timer>>, fired: seq<Firing>)
  {
    ghost predicate Shaped() {
      |buckets| == WHEEL_COUNT * WHEEL_SIZE
    }
  }

  /** Microseconds covered by one bucket of wheel `i` (WHEEL_IDX_TO_SHIFT). */
  function Granularity(i: nat): (g: nat)
    ensures g > 0
  {
    if i == 0 then 16 else if i == 1 then 4096 else 1048576
  }

  /** WHEEL_OFFSET before masking: the absolute slot number of an instant on wheel `i`. */
  function SlotOf(us: nat, i: nat): nat {
    us / Granularity(i)
  }

  /** The slot number a timer belongs to on wheel `i`. */
  function Slot(t: Timer, i: nat): nat {
    SlotOf(t.expires + MIN_DELAY_US, i)
  }

  /** Position of the most significant set bit: 63 - clz64(x). */
  function Msb(x: nat): nat {
    if x < 2 then 0 else 1 + Msb(x / 2)
  }

  /** The branch-free wheel choice of timer_insert. */
  function WheelIndex(delay: nat): int {
    (Msb(delay) - 4) / 8
  }

  /** Msb is the exponent of the largest power of two below x, checked at the wheel boundaries. */
  lemma MsbBelow(x: nat, k: nat)
    requires x < Pow2(k) && 0 < k
    ensures Msb(x) < k
    decreases k
  {
    if x >= 2 {
      MsbBelow(x / 2, k - 1);
    }
  }

  lemma MsbAbove(x: nat, k: nat)
    requires Pow2(k) <= x
    ensures k <= Msb(x)
    decreases k
  {
    if k > 0 {
      MsbAbove(x / 2, k - 1);
    }
  }

  lemma Powers()
    ensures Pow2(4) == 16 && Pow2(12) == 4096 && Pow2(20) == 1048576 && Pow2(28) == 268435456
  {
    assert Pow2(4) == 16;
    assert Pow2(8) == 256;
    assert Pow2(12) == 4096;
    assert Pow2(16) == 65536;
    assert Pow2(20) == 1048576;
    assert Pow2(24) == 16777216;
    assert Pow2(28) == 268435456;
  }

  /** The count-leading-zeros trick selects the finest wheel whose range covers the delay, and stays
      inside the wheel array exactly for rounded delays of at least one and less than 2^28. */
  lemma WheelIndexMeaning(delay: nat)
    requires delay >= 16
    ensures delay < 4096 <==> WheelIndex(delay) == 0
    ensures 4096 <= delay < 1048576 <==> WheelIndex(delay) == 1
    ensures 1048576 <= delay < MAX_DELAY_US <==> WheelIndex(delay) == 2
    ensures 0 <= WheelIndex(delay) < WHEEL_COUNT <==> delay < MAX_DELAY_US
  {
    Powers();
    MsbAbove(delay, 4);
    if delay < 4096 {
      MsbBelow(delay, 12);
    } else if delay < 1048576 {
      MsbAbove(delay, 12);
      MsbBelow(delay, 20);
    } else if delay < MAX_DELAY_US {
      MsbAbove(delay, 20);
      MsbBelow(delay, 28);
    } else {
      MsbAbove(delay, 28);
    }
  }

  /** timer_add accepts the delays below 2^28, but timer_insert rounds up from the cached clock: the index it
      computes is inside the wheel array exactly when the clock is not too far ahead of the cached one. */
  lemma AcceptedOutside(now: nat, clock: nat, delay: nat)
    requires now <= clock && 0 < delay < MAX_DELAY_US
    ensures 0 <= WheelIndex(clock + delay + MIN_DELAY_US - now) < WHEEL_COUNT <==>
              clock - now < MAX_DELAY_US - MIN_DELAY_US - delay
    ensures WheelIndex(MAX_DELAY_US - 1 + MIN_DELAY_US) == WHEEL_COUNT
  {
    WheelIndexMeaning(clock + delay + MIN_DELAY_US - now);
    WheelIndexMeaning(MAX_DELAY_US - 1 + MIN_DELAY_US);
    Powers();
    MsbBelow(MAX_DELAY_US - 1 + MIN_DELAY_US, 29);
    MsbAbove(MAX_DELAY_US - 1 + MIN_DELAY_US, 28);
  }

  // ---------------------------------------------------------------------------------------------
  // The operations as functions
  // ---------------------------------------------------------------------------------------------

  /** The bucket timer_insert picks. */
  function Bucket(t: Timer, now: nat): (k: nat)
    requires InRange(t, now)
    ensures k < WHEEL_COUNT * WHEEL_SIZE
  {
    var delay := t.expires + MIN_DELAY_US - now;
    WheelIndexMeaning(delay);
    var i := WheelIndex(delay);
    WHEEL_SIZE * i + Slot(t, i) % WHEEL_SIZE
  }

  /** timer_insert neither underflows its delay nor leaves the wheel array. */
  predicate InRange(t: Timer, now: nat) {
    now <= t.expires && t.expires + MIN_DELAY_US - now < MAX_DELAY_US
  }

  ghost predicate AllInRange(ts: seq<Timer>, now: nat) {
    forall t | t in ts :: t.expires + MIN_DELAY_US < now + MAX_DELAY_US
  }

  /** Every pending timer is within reach of the wheels. */
  ghost predicate Bounded(s: State) {
    s.Shaped() && forall k | 0 <= k < |s.buckets| :: AllInRange(s.buckets[k], s.now)
  }

  /** timer_insert (hlist_add_head). */
  function Insert(s: State, t: Timer): (r: State)
    requires Bounded(s) && InRange(t, s.now)
    ensures Bounded(r) && r.now == s.now && r.pos == s.pos && r.fired == s.fired
  {
    var k := Bucket(t, s.now);
    s.(buckets := s.buckets[k := [t] + s.buckets[k]])
  }

  /** Invoke one handler. */
  function Fire(s: State, t: Timer): State {
    s.(fired := s.fired + [Firing(t, s.now)])
  }

  /** Unlink the whole list of bucket `k`. */
  function Drain(s: State, k: nat): (r: State)
    requires Bounded(s) && k < |s.buckets|
    ensures Bounded(r) && r.now == s.now && r.pos == s.pos
  {
    s.(buckets := s.buckets[k := []])
  }

  /** The loop of timer_reinsert_bucket: fire what has expired, insert the rest again. */
  function Reinsert(s: State, ts: seq<Timer>): (r: State)
    requires Bounded(s) && AllInRange(ts, s.now)
    ensures Bounded(r) && r.now == s.now && r.pos == s.pos
    decreases |ts|
  {
    if ts == [] then s
    else if ts[0].expires <= s.now then Reinsert(Fire(s, ts[0]), ts[1..])
    else Reinsert(Insert(s, ts[0]), ts[1..])
  }

  function BucketAt(pos: nat, i: nat): (k: nat)
    requires i < WHEEL_COUNT
    ensures k < WHEEL_COUNT * WHEEL_SIZE
  {
    WHEEL_SIZE * i + SlotOf(pos, i) % WHEEL_SIZE
  }

  function Cascade(s: State, pos: nat, i: nat): (r: State)
    requires Bounded(s) && i < WHEEL_COUNT
    ensures Bounded(r) && r.now == s.now && r.pos == s.pos
  {
    var k := BucketAt(pos, i);
    Reinsert(Drain(s, k), s.buckets[k])
  }

  /** timer_collapse: wheel 1, and wheel 2 as well when wheel 1 itself has wrapped. */
  function Collapse(s: State, pos: nat): (r: State)
    requires Bounded(s)
    ensures Bounded(r) && r.now == s.now && r.pos == s.pos
  {
    var s1 := Cascade(s, pos, 1);
    if SlotOf(pos, 1) % WHEEL_SIZE != 0 then s1 else Cascade(s1, pos, 2)
  }

  function FireAll(s: State, ts: seq<Timer>): (r: State)
    ensures r.buckets == s.buckets && r.now == s.now && r.pos == s.pos
    decreases |ts|
  {
    if ts == [] then s else FireAll(Fire(s, ts[0]), ts[1..])
  }

  /** One turn of the timer_run loop. */
  function Tick(s: State, pos: nat): (r: State)
    requires Bounded(s)
    ensures Bounded(r) && r.now == s.now && r.pos == s.pos
  {
    var s1 := if SlotOf(pos, 0) % WHEEL_SIZE == 0 then Collapse(s, pos) else s;
    var k := BucketAt(pos, 0);
    FireAll(Drain(s1, k), s1.buckets[k])
  }

  /** The timer_run loop from position `pos`. */
  function RunFrom(s: State, pos: nat): (r: State)
    requires Bounded(s)
    ensures Bounded(r) && r.now == s.now
    decreases s.now + 1 - pos
  {
    if pos <= s.now then RunFrom(Tick(s, pos), pos + MIN_DELAY_US) else s.(pos := pos)
  }

  lemma RunFromTurn(s: State, pos: nat)
    requires Bounded(s) && pos <= s.now
    ensures RunFrom(s, pos) == RunFrom(Tick(s, pos), pos + MIN_DELAY_US)
  {
  }

  /** timer_run at a clock reading. */
  function Run(s: State, clock: nat): (r: State)
    requires Bounded(s) && s.now <= clock
    ensures Bounded(r) && r.now == clock
  {
    RunFrom(s.(now := clock), s.pos)
  }

  /** timer_init_cpu: nothing aligns the position. */
  function Init(clock: nat): (s: State)
    ensures Bounded(s)
  {
    State(clock, clock, seq(WHEEL_COUNT * WHEEL_SIZE, _ => []), [])
  }

  // ---------------------------------------------------------------------------------------------
  // The wheel invariant
  // ---------------------------------------------------------------------------------------------

  /** The first slot of wheel `i` that is still to be processed when slot `p` of wheel 0 is next. */
  function NextSlot(i: nat, p: nat): nat {
    if i == 0 then p else if i == 1 then (p + 255) / 256 else (p + 65535) / 65536
  }

  function NextSlots(p: nat): (n: seq<nat>)
    ensures |n| == WHEEL_COUNT && n[0] == NextSlot(0, p) && n[1] == NextSlot(1, p) && n[2] == NextSlot(2, p)
  {
    [NextSlot(0, p), NextSlot(1, p), NextSlot(2, p)]
  }

  /** A timer sits in bucket `k`: the bucket is congruent to its slot, the slot is still to come, and
      a timer on the finest wheel is near.  In `exact` mode the slot is also less than one revolution
      away and the coarsest wheel is unused. */
  ghost predicate Placed(t: Timer, k: nat, n: seq<nat>, now: nat, exact: bool)
    requires |n| == WHEEL_COUNT && k < WHEEL_COUNT * WHEEL_SIZE
  {
    var i := k / WHEEL_SIZE;
    && Slot(t, i) % WHEEL_SIZE == k % WHEEL_SIZE
    && n[i] <= Slot(t, i)
    && (i == 0 ==> t.expires + MIN_DELAY_US < now + 4096)
    && (exact ==> i < 2 && Slot(t, i) < n[i] + WHEEL_SIZE)
  }

  ghost predicate AllPlaced(s: State, n: seq<nat>, exact: bool)
    requires |n| == WHEEL_COUNT
  {
    s.Shaped() && forall k, t | 0 <= k < |s.buckets| && t in s.buckets[k] :: Placed(t, k, n, s.now, exact)
  }

  /** What is promised of a handler invocation: it is never more than 4079 us early, and not early
      at all in `exact` mode. */
  ghost predicate GoodFiring(f: Firing, exact: bool) {
    && f.timer.expires + MIN_DELAY_US < f.now + 4096
    && (exact ==> f.timer.expires <= f.now)
  }

  ghost predicate GoodLog(fired: seq<Firing>, exact: bool) {
    forall f | f in fired :: GoodFiring(f, exact)
  }

  /** The bucket timer_insert would pick for `t` satisfies the invariant. */
  ghost predicate Lands(t: Timer, now: nat, n: seq<nat>, exact: bool)
    requires |n| == WHEEL_COUNT
  {
    t.expires > now && InRange(t, now) ==> Placed(t, Bucket(t, now), n, now, exact)
  }

  lemma InsertPlaced(s: State, t: Timer, n: seq<nat>, exact: bool)
    requires Bounded(s) && InRange(t, s.now) && |n| == WHEEL_COUNT
    requires AllPlaced(s, n, exact) && Placed(t, Bucket(t, s.now), n, s.now, exact)
    ensures AllPlaced(Insert(s, t), n, exact)
  {
    var r := Insert(s, t);
    var kt := Bucket(t, s.now);
    forall k, u | 0 <= k < |r.buckets| && u in r.buckets[k]
      ensures Placed(u, k, n, s.now, exact)
    {
      if k == kt && u == t {
      } else {
        assert u in s.buckets[k];
      }
    }
  }

  lemma {:induction false} ReinsertPlaced(s: State, ts: seq<Timer>, n: seq<nat>, exact: bool)
    requires Bounded(s) && AllInRange(ts, s.now) && |n| == WHEEL_COUNT
    requires AllPlaced(s, n, exact) && GoodLog(s.fired, exact)
    requires forall t | t in ts :: Lands(t, s.now, n, exact)
    ensures AllPlaced(Reinsert(s, ts), n, exact) && GoodLog(Reinsert(s, ts).fired, exact)
    decreases |ts|
  {
    if ts != [] {
      if ts[0].expires <= s.now {
        ReinsertPlaced(Fire(s, ts[0]), ts[1..], n, exact);
      } else {
        assert Lands(ts[0], s.now, n, exact);
        InsertPlaced(s, ts[0], n, exact);
        ReinsertPlaced(Insert(s, ts[0]), ts[1..], n, exact);
      }
    }
  }

  /** Draining bucket `k` of wheel `i` completes slot n[i]: everything else on the wheel is later. */
  lemma DrainPlaced(s: State, i: nat, n: seq<nat>, m: seq<nat>, exact: bool)
    requires Bounded(s) && i < WHEEL_COUNT && |n| == WHEEL_COUNT && m == n[i := n[i] + 1]
    requires AllPlaced(s, n, exact)
    ensures AllPlaced(Drain(s, WHEEL_SIZE * i + n[i] % WHEEL_SIZE), m, exact)
  {
    var kd := WHEEL_SIZE * i + n[i] % WHEEL_SIZE;
    var r := Drain(s, kd);
    forall k, t | 0 <= k < |r.buckets| && t in r.buckets[k]
      ensures Placed(t, k, m, s.now, exact)
    {
      assert k != kd && t in s.buckets[k];
      assert Placed(t, k, n, s.now, exact);
      if k / WHEEL_SIZE == i {
        assert k % WHEEL_SIZE != kd % WHEEL_SIZE;
      }
    }
  }

  /** A timer cascading out of wheel `i` at slot `p` lands ahead of what is already processed. */
  lemma CascadeLands(t: Timer, i: nat, p: nat, now: nat, n: seq<nat>, exact: bool)
    requires i == 1 || (i == 2 && p % 65536 == 0)
    requires p % 256 == 0 && 16 * p <= now && |n| == WHEEL_COUNT
    requires n[0] == p && n[1] == p / 256 + 1
    requires if i == 1 then n[2] == NextSlot(2, p) else n[2] == p / 65536 + 1
    requires SlotOf(16 * p, i) <= Slot(t, i)
    requires exact ==> i == 1 && Slot(t, 1) == p / 256
    ensures Lands(t, now, n, exact)
  {
    if t.expires > now && InRange(t, now) {
      var delay := t.expires + MIN_DELAY_US - now;
      WheelIndexMeaning(delay);
      assert t.expires + MIN_DELAY_US >= 16 * p + delay;
    }
  }

  /** All timers of the bucket that is drained. */
  lemma CascadeLandsAll(s: State, k: nat, i: nat, p: nat, n: seq<nat>, m: seq<nat>, exact: bool)
    requires Bounded(s) && |n| == WHEEL_COUNT && AllPlaced(s, n, exact) && k < |s.buckets| && 16 * p <= s.now
    requires (i == 1 || i == 2) && k / WHEEL_SIZE == i && k % WHEEL_SIZE == n[i] % WHEEL_SIZE
    requires p % 256 == 0 && (i == 2 ==> p % 65536 == 0) && m == n[i := n[i] + 1]
    requires n == if i == 1 then NextSlots(p) else NextSlots(p)[1 := p / 256 + 1]
    requires SlotOf(16 * p, i) == n[i] && n[0] == p && (i == 2 ==> n[2] == p / 65536 && n[1] == p / 256 + 1)
    ensures forall t | t in s.buckets[k] :: Lands(t, s.now, m, exact)
  {
    forall t | t in s.buckets[k]
      ensures Lands(t, s.now, m, exact)
    {
      assert Placed(t, k, n, s.now, exact);
      CascadeLands(t, i, p, s.now, m, exact);
    }
  }

  /** Cascading wheel `i` at slot `p` of wheel 0 keeps the invariant with slot n[i] done. */
  lemma CascadePlaced(s: State, pos: nat, i: nat, p: nat, n: seq<nat>, exact: bool)
    requires Bounded(s) && (i == 1 || i == 2) && |n| == WHEEL_COUNT
    requires p == pos / 16 && pos <= s.now
    requires p % 256 == 0 && (i == 2 ==> p % 65536 == 0)
    requires n == if i == 1 then NextSlots(p) else NextSlots(p)[1 := p / 256 + 1]
    requires AllPlaced(s, n, exact) && GoodLog(s.fired, exact)
    ensures var r := Cascade(s, pos, i);
            AllPlaced(r, n[i := n[i] + 1], exact) && GoodLog(r.fired, exact)
  {
    var k := BucketAt(pos, i);
    var m := n[i := n[i] + 1];
    CascadeSlots(pos, i, p, n);
    DrainPlaced(s, i, n, m, exact);
    CascadeLandsAll(s, k, i, p, n, m, exact);
    ReinsertPlaced(Drain(s, k), s.buckets[k], m, exact);
  }

  /** The bucket a collapse drains is that of the first slot still to be processed. */
  lemma CascadeSlots(pos: nat, i: nat, p: nat, n: seq<nat>)
    requires (i == 1 || i == 2) && |n| == WHEEL_COUNT && p == pos / 16
    requires p % 256 == 0 && (i == 2 ==> p % 65536 == 0)
    requires n == if i == 1 then NextSlots(p) else NextSlots(p)[1 := p / 256 + 1]
    ensures SlotOf(pos, i) == SlotOf(16 * p, i) == n[i]
    ensures BucketAt(pos, i) / WHEEL_SIZE == i && BucketAt(pos, i) % WHEEL_SIZE == n[i] % WHEEL_SIZE
    ensures n[0] == p && n[1 := p / 256 + 1][1] == p / 256 + 1
    ensures i == 2 ==> n[2] == p / 65536 && n[1] == p / 256 + 1
  {
  }

  lemma NextSlotStep(p: nat)
    ensures NextSlot(1, p + 1) == p / 256 + 1
    ensures NextSlot(1, p) == if p % 256 == 0 then p / 256 else p / 256 + 1
    ensures NextSlot(2, p + 1) == p / 65536 + 1
    ensures NextSlot(2, p) == if p % 65536 == 0 then p / 65536 else p / 65536 + 1
  {
  }

  lemma WrapsTogether(p: nat)
    requires p % 65536 == 0
    ensures p % 256 == 0
  {
    assert p == 256 * (256 * (p / 65536));
  }

  /** Which slots the collapse at slot `p` finishes. */
  lemma NextSlotsAdvance(p: nat)
    ensures p % 256 != 0 ==> NextSlots(p + 1)[0 := p] == NextSlots(p)
    ensures p % 256 == 0 && p % 65536 != 0 ==> NextSlots(p + 1)[0 := p] == NextSlots(p)[1 := p / 256 + 1]
    ensures p % 256 == 0 && p % 65536 == 0 ==>
              NextSlots(p + 1)[0 := p] == NextSlots(p)[1 := p / 256 + 1][2 := p / 65536 + 1]
  {
    NextSlotStep(p);
    if p % 256 != 0 {
      if p % 65536 == 0 {
        WrapsTogether(p);
      }
    }
  }

  lemma CollapsePlaced(s: State, pos: nat, p: nat, exact: bool)
    requires Bounded(s) && p == pos / 16 && pos <= s.now && p % 256 == 0
    requires AllPlaced(s, NextSlots(p), exact) && GoodLog(s.fired, exact)
    ensures AllPlaced(Collapse(s, pos), NextSlots(p + 1)[0 := p], exact)
    ensures GoodLog(Collapse(s, pos).fired, exact)
  {
    NextSlotsAdvance(p);
    NextSlotStep(p);
    var n := NextSlots(p);
    CascadePlaced(s, pos, 1, p, n, exact);
    var s1 := Cascade(s, pos, 1);
    var n1 := n[1 := p / 256 + 1];
    assert n[1 := n[1] + 1] == n1;
    assert SlotOf(pos, 1) % WHEEL_SIZE == 0 <==> p % 65536 == 0 by {
      assert SlotOf(pos, 1) == p / 256;
    }
    if p % 65536 == 0 {
      CascadePlaced(s1, pos, 2, p, n1, exact);
    }
  }

  lemma {:induction false} FireAllGood(s: State, ts: seq<Timer>, exact: bool)
    requires GoodLog(s.fired, exact)
    requires forall t | t in ts :: GoodFiring(Firing(t, s.now), exact)
    ensures GoodLog(FireAll(s, ts).fired, exact)
    decreases |ts|
  {
    if ts != [] {
      FireAllGood(Fire(s, ts[0]), ts[1..], exact);
    }
  }

  /** One turn of the loop: slot `p` is finished, and only timers of that slot ran. */
  lemma TickPlaced(s: State, pos: nat, exact: bool)
    requires Bounded(s) && pos <= s.now
    requires AllPlaced(s, NextSlots(pos / 16), exact) && GoodLog(s.fired, exact)
    ensures AllPlaced(Tick(s, pos), NextSlots(pos / 16 + 1), exact)
    ensures GoodLog(Tick(s, pos).fired, exact)
  {
    var p := pos / 16;
    var n := NextSlots(p + 1)[0 := p];
    var s1 := if SlotOf(pos, 0) % WHEEL_SIZE == 0 then Collapse(s, pos) else s;
    assert AllPlaced(s1, n, exact) && GoodLog(s1.fired, exact) by {
      if p % 256 == 0 {
        CollapsePlaced(s, pos, p, exact);
      } else {
        NextSlotsAdvance(p);
      }
    }
    RunBucketPlaced(s1, pos, p, n, exact);
  }

  lemma RunBucketPlaced(s: State, pos: nat, p: nat, n: seq<nat>, exact: bool)
    requires Bounded(s) && p == pos / 16 && pos <= s.now
    requires |n| == WHEEL_COUNT && n[0] == p
    requires AllPlaced(s, n, exact) && GoodLog(s.fired, exact)
    ensures var k := BucketAt(pos, 0);
            var r := FireAll(Drain(s, k), s.buckets[k]);
            AllPlaced(r, n[0 := p + 1], exact) && GoodLog(r.fired, exact)
  {
    var k := BucketAt(pos, 0);
    DrainPlaced(s, 0, n, n[0 := p + 1], exact);
    forall t | t in s.buckets[k]
      ensures GoodFiring(Firing(t, s.now), exact)
    {
      assert Placed(t, k, n, s.now, exact);
    }
    FireAllGood(Drain(s, k), s.buckets[k], exact);
  }

  lemma {:induction false} RunFromPlaced(s: State, pos: nat, exact: bool)
    requires Bounded(s)
    requires AllPlaced(s, NextSlots(pos / 16), exact) && GoodLog(s.fired, exact)
    ensures var r := RunFrom(s, pos);
            AllPlaced(r, NextSlots(r.pos / 16), exact) && GoodLog(r.fired, exact)
    decreases s.now + 1 - pos
  {
    if pos <= s.now {
      TickPlaced(s, pos, exact);
      assert (pos + MIN_DELAY_US) / 16 == pos / 16 + 1;
      RunFromPlaced(Tick(s, pos), pos + MIN_DELAY_US, exact);
    }
  }

  /** The loop stops at the first position past the clock. */
  lemma {:induction false} RunFromPosition(s: State, pos: nat)
    requires Bounded(s) && pos <= s.now + MIN_DELAY_US
    ensures s.now < RunFrom(s, pos).pos <= s.now + MIN_DELAY_US
    ensures RunFrom(s, pos).pos % 16 == pos % 16
    decreases s.now + 1 - pos
  {
    if pos <= s.now {
      RunFromPosition(Tick(s, pos), pos + MIN_DELAY_US);
    }
  }

  // ---------------------------------------------------------------------------------------------
  // Conservation of timers
  // ---------------------------------------------------------------------------------------------

  /** All timers in a list of buckets, counted. */
  function Flatten(b: seq<seq<Timer>>): multiset<Timer> {
    if b == [] then multiset{} else multiset(b[0]) + Flatten(b[1..])
  }

  function FiredTimers(fired: seq<Firing>): multiset<Timer> {
    if fired == [] then multiset{} else multiset{fired[|fired| - 1].timer} + FiredTimers(fired[..|fired| - 1])
  }

  /** Every timer the wheel has been given: pending in some bucket, or handed to its handler. */
  function Accounted(s: State): multiset<Timer> {
    Flatten(s.buckets) + FiredTimers(s.fired)
  }

  lemma SameSum<T>(a: multiset<T>, f: multiset<T>, m: multiset<T>, g: multiset<T>, x: multiset<T>)
    requires f + m == g + x
    ensures (a + f) + m == (a + g) + x
  {
    assert (a + f) + m == a + (f + m);
    assert (a + g) + x == a + (g + x);
  }

  lemma CancelSum<T>(f: multiset<T>, m: multiset<T>, g: multiset<T>, x: multiset<T>)
    requires f + m == g + (x + m)
    ensures f == g + x
  {
    assert f == (f + m) - m;
    assert g + x == (g + (x + m)) - m;
  }

  lemma {:induction false} FlattenUpdate(b: seq<seq<Timer>>, k: nat, x: seq<Timer>)
    requires k < |b|
    ensures Flatten(b[k := x]) + multiset(b[k]) == Flatten(b) + multiset(x)
  {
    if k == 0 {
      assert b[k := x][1..] == b[1..];
    } else {
      FlattenUpdate(b[1..], k - 1, x);
      assert b[k := x][1..] == b[1..][k - 1 := x];
      SameSum(multiset(b[0]), Flatten(b[1..][k - 1 := x]), multiset(b[k]), Flatten(b[1..]), multiset(x));
    }
  }

  lemma FireAccounted(s: State, t: Timer)
    ensures Accounted(Fire(s, t)) == Accounted(s) + multiset{t}
  {
    assert Fire(s, t).fired[..|s.fired|] == s.fired;
  }

  lemma InsertAccounted(s: State, t: Timer)
    requires Bounded(s) && InRange(t, s.now)
    ensures Accounted(Insert(s, t)) == Accounted(s) + multiset{t}
  {
    var k := Bucket(t, s.now);
    var x := [t] + s.buckets[k];
    FlattenUpdate(s.buckets, k, x);
    assert multiset(x) == multiset{t} + multiset(s.buckets[k]);
    CancelSum(Flatten(Insert(s, t).buckets), multiset(s.buckets[k]), Flatten(s.buckets), multiset{t});
  }

  lemma DrainAccounted(s: State, k: nat)
    requires Bounded(s) && k < |s.buckets|
    ensures Accounted(Drain(s, k)) + multiset(s.buckets[k]) == Accounted(s)
  {
    var drained, batch := Flatten(Drain(s, k).buckets), multiset(s.buckets[k]);
    FlattenUpdate(s.buckets, k, []);
    assert drained + batch == Flatten(s.buckets);
    assert (drained + FiredTimers(s.fired)) + batch == (drained + batch) + FiredTimers(s.fired);
  }

  lemma {:induction false} ReinsertAccounted(s: State, ts: seq<Timer>)
    requires Bounded(s) && AllInRange(ts, s.now)
    ensures Accounted(Reinsert(s, ts)) == Accounted(s) + multiset(ts)
    decreases |ts|
  {
    if ts != [] {
      assert ts == [ts[0]] + ts[1..];
      assert multiset(ts) == multiset{ts[0]} + multiset(ts[1..]);
      if ts[0].expires <= s.now {
        FireAccounted(s, ts[0]);
        ReinsertAccounted(Fire(s, ts[0]), ts[1..]);
      } else {
        InsertAccounted(s, ts[0]);
        ReinsertAccounted(Insert(s, ts[0]), ts[1..]);
      }
    }
  }

  lemma {:induction false} FireAllAccounted(s: State, ts: seq<Timer>)
    ensures Accounted(FireAll(s, ts)) == Accounted(s) + multiset(ts)
    decreases |ts|
  {
    if ts != [] {
      assert ts == [ts[0]] + ts[1..];
      assert multiset(ts) == multiset{ts[0]} + multiset(ts[1..]);
      FireAccounted(s, ts[0]);
      FireAllAccounted(Fire(s, ts[0]), ts[1..]);
    }
  }

  lemma CascadeAccounted(s: State, pos: nat, i: nat)
    requires Bounded(s) && i < WHEEL_COUNT
    ensures Accounted(Cascade(s, pos, i)) == Accounted(s)
  {
    var k := BucketAt(pos, i);
    DrainAccounted(s, k);
    ReinsertAccounted(Drain(s, k), s.buckets[k]);
  }

  lemma TickAccounted(s: State, pos: nat)
    requires Bounded(s)
    ensures Accounted(Tick(s, pos)) == Accounted(s)
  {
    var s1 := if SlotOf(pos, 0) % WHEEL_SIZE == 0 then Collapse(s, pos) else s;
    if SlotOf(pos, 0) % WHEEL_SIZE == 0 {
      CascadeAccounted(s, pos, 1);
      CascadeAccounted(Cascade(s, pos, 1), pos, 2);
    }
    var k := BucketAt(pos, 0);
    DrainAccounted(s1, k);
    FireAllAccounted(Drain(s1, k), s1.buckets[k]);
  }

  lemma {:induction false} RunFromAccounted(s: State, pos: nat)
    requires Bounded(s)
    ensures Accounted(RunFrom(s, pos)) == Accounted(s)
    decreases s.now + 1 - pos
  {
    if pos <= s.now {
      TickAccounted(s, pos);
      RunFromAccounted(Tick(s, pos), pos + MIN_DELAY_US);
    }
  }

  // ---------------------------------------------------------------------------------------------
  // Histories: timers are added between runs, the clock never goes back
  // ---------------------------------------------------------------------------------------------

  datatype Event = Add(timer: Timer) | RunAt(clock: nat)

  /** `limit` bounds the rounded delay, measured from the cached clock. */
  predicate Enabled(s: State, e: Event, limit: nat) {
    match e
    case Add(t) => s.now < t.expires && t.expires + MIN_DELAY_US - s.now < limit
    case RunAt(clock) => s.now <= clock
  }

  function Apply(s: State, e: Event, limit: nat): (r: State)
    requires Bounded(s) && Enabled(s, e, limit) && limit <= MAX_DELAY_US
    ensures Bounded(r)
  {
    match e
    case Add(t) => Insert(s, t)
    case RunAt(clock) => Run(s, clock)
  }

  ghost predicate Legal(s: State, events: seq<Event>, limit: nat)
    requires Bounded(s) && limit <= MAX_DELAY_US
    decreases |events|
  {
    events != [] ==> Enabled(s, events[0], limit) && Legal(Apply(s, events[0], limit), events[1..], limit)
  }

  function Exec(s: State, events: seq<Event>, limit: nat): (r: State)
    requires Bounded(s) && limit <= MAX_DELAY_US && Legal(s, events, limit)
    ensures Bounded(r)
    decreases |events|
  {
    if events == [] then s else Exec(Apply(s, events[0], limit), events[1..], limit)
  }

  function Added(events: seq<Event>): multiset<Timer> {
    if events == [] then multiset{}
    else (if events[0].Add? then multiset{events[0].timer} else multiset{}) + Added(events[1..])
  }

  ghost predicate WheelInvariant(s: State, exact: bool) {
    && Bounded(s)
    && s.now <= s.pos <= s.now + MIN_DELAY_US
    && AllPlaced(s, NextSlots(s.pos / 16), exact)
    && GoodLog(s.fired, exact)
  }

  /** Positions that are `r` past a bucket boundary, and rounded delays below `limit`: no timer is placed a
      whole revolution ahead. */
  predicate Timely(r: nat, limit: nat) {
    (r == 0 && limit <= 1048576) || limit + r <= 4096
  }

  /** A freshly added timer lands in a slot that is still to come. */
  lemma AddLands(t: Timer, now: nat, pos: nat, exact: bool)
    requires InRange(t, now) && now < t.expires && now <= pos <= now + MIN_DELAY_US
    requires exact ==> Timely(pos % MIN_DELAY_US, t.expires + MIN_DELAY_US - now + 1)
    ensures Placed(t, Bucket(t, now), NextSlots(pos / 16), now, exact)
  {
    var delay := t.expires + MIN_DELAY_US - now;
    WheelIndexMeaning(delay);
  }

  /** Every event keeps the invariant. */
  lemma ApplyKeepsInvariant(s: State, e: Event, limit: nat, exact: bool)
    requires WheelInvariant(s, exact) && limit <= MAX_DELAY_US && (exact ==> Timely(s.pos % MIN_DELAY_US, limit))
    requires Enabled(s, e, limit)
    ensures WheelInvariant(Apply(s, e, limit), exact) && Apply(s, e, limit).pos % MIN_DELAY_US == s.pos % MIN_DELAY_US
  {
    match e
    case Add(t) =>
      AddLands(t, s.now, s.pos, exact);
      InsertPlaced(s, t, NextSlots(s.pos / 16), exact);
    case RunAt(clock) =>
      var s1 := s.(now := clock);
      forall k, t | 0 <= k < |s1.buckets| && t in s1.buckets[k]
        ensures Placed(t, k, NextSlots(s.pos / 16), s1.now, exact)
      {
        assert Placed(t, k, NextSlots(s.pos / 16), s.now, exact);
      }
      RunFromPlaced(s1, s.pos, exact);
      RunFromPosition(s1, s.pos);
  }

  lemma {:induction false} ExecKeepsInvariant(s: State, events: seq<Event>, limit: nat, exact: bool)
    requires WheelInvariant(s, exact) && limit <= MAX_DELAY_US && (exact ==> Timely(s.pos % MIN_DELAY_US, limit))
    requires Legal(s, events, limit)
    ensures WheelInvariant(Exec(s, events, limit), exact)
    ensures Exec(s, events, limit).pos % MIN_DELAY_US == s.pos % MIN_DELAY_US
    decreases |events|
  {
    if events != [] {
      ApplyKeepsInvariant(s, events[0], limit, exact);
      ExecKeepsInvariant(Apply(s, events[0], limit), events[1..], limit, exact);
    }
  }

  lemma {:induction false} ExecAccounted(s: State, events: seq<Event>, limit: nat)
    requires Bounded(s) && limit <= MAX_DELAY_US && Legal(s, events, limit)
    ensures Accounted(Exec(s, events, limit)) == Accounted(s) + Added(events)
    decreases |events|
  {
    if events != [] {
      var s1 := Apply(s, events[0], limit);
      match events[0] {
        case Add(t) => InsertAccounted(s, t);
        case RunAt(clock) => RunFromAccounted(s.(now := clock), s.pos);
      }
      ExecAccounted(s1, events[1..], limit);
    }
  }

  lemma {:induction false} FlattenEmpty(b: seq<seq<Timer>>)
    requires forall k | 0 <= k < |b| :: b[k] == []
    ensures Flatten(b) == multiset{}
  {
    if b != [] {
      FlattenEmpty(b[1..]);
    }
  }

  /** Under the invariant nothing pending is overdue by more than a bucket, and nothing fired 4080 us
      or more ahead of time. */
  lemma NeverLate(s: State)
    requires WheelInvariant(s, false)
    ensures forall k, t | 0 <= k < |s.buckets| && t in s.buckets[k] ::
              s.pos - s.pos % MIN_DELAY_US <= t.expires + MIN_DELAY_US
    ensures forall f | f in s.fired :: f.timer.expires < f.now + 4080
  {
    forall k, t | 0 <= k < |s.buckets| && t in s.buckets[k]
      ensures s.pos - s.pos % MIN_DELAY_US <= t.expires + MIN_DELAY_US
    {
      assert Placed(t, k, NextSlots(s.pos / 16), s.now, false);
      NextSlotStep(s.pos / 16);
    }
    forall f | f in s.fired
      ensures f.timer.expires < f.now + 4080
    {
      assert GoodFiring(f, false);
    }
  }

  lemma InitInvariant(clock: nat, exact: bool)
    ensures WheelInvariant(Init(clock), exact) && Accounted(Init(clock)) == multiset{}
  {
    FlattenEmpty(Init(clock).buckets);
  }

  /** No timer is ever lost, duplicated or late, on all three wheels and from any start: what was
      added is exactly what is pending plus what has fired; what is pending is not overdue by a
      bucket; and nothing fires 4080 us or more ahead of time. */
  lemma Conservation(clock: nat, events: seq<Event>, limit: nat)
    requires limit <= MAX_DELAY_US && Legal(Init(clock), events, limit)
    ensures var s := Exec(Init(clock), events, limit);
      && Flatten(s.buckets) + FiredTimers(s.fired) == Added(events)
      && (forall k, t | 0 <= k < |s.buckets| && t in s.buckets[k] ::
            s.pos - s.pos % MIN_DELAY_US <= t.expires + MIN_DELAY_US)
      && (forall f | f in s.fired :: f.timer.expires < f.now + 4080)
      && s.now <= s.pos <= s.now + MIN_DELAY_US && s.pos % MIN_DELAY_US == clock % MIN_DELAY_US
  {
    var s0 := Init(clock);
    InitInvariant(clock, false);
    ExecAccounted(s0, events, limit);
    ExecKeepsInvariant(s0, events, limit, false);
    NeverLate(Exec(s0, events, limit));
  }

  // ---------------------------------------------------------------------------------------------
  // When no handler can run early
  // ---------------------------------------------------------------------------------------------

  ghost predicate OnTime(s: State) {
    forall f | f in s.fired :: f.timer.expires <= f.now
  }

  /** No history from this start, with rounded delays below `limit`, ever runs a handler early. */
  ghost predicate AlwaysOnTime(clock: nat, limit: nat)
    requires limit <= MAX_DELAY_US
  {
    forall events | Legal(Init(clock), events, limit) :: OnTime(Exec(Init(clock), events, limit))
  }

  /** Handlers are on time from an aligned start if no rounded delay reaches the coarsest wheel, and from any
      start if the rounded delays stay within the first wheel by as much as the start is off. */
  lemma TimelyIsOnTime(clock: nat, limit: nat)
    requires Timely(clock % MIN_DELAY_US, limit) && limit <= MAX_DELAY_US
    ensures AlwaysOnTime(clock, limit)
  {
    forall events | Legal(Init(clock), events, limit)
      ensures OnTime(Exec(Init(clock), events, limit))
    {
      InitInvariant(clock, true);
      ExecKeepsInvariant(Init(clock), events, limit, true);
      var s := Exec(Init(clock), events, limit);
      forall f | f in s.fired
        ensures f.timer.expires <= f.now
      {
        assert GoodFiring(f, true);
      }
    }
  }

  /** Nothing is touched by the turn at `pos`. */
  ghost predicate QuietAt(s: State, pos: nat)
    requires Bounded(s)
  {
    && (forall k | 0 <= k < 2 * WHEEL_SIZE :: s.buckets[k] == [])
    && (pos / 16 % 65536 == 0 ==> s.buckets[BucketAt(pos, 2)] == [])
  }

  lemma CascadeQuiet(s: State, pos: nat, i: nat)
    requires Bounded(s) && i < WHEEL_COUNT && s.buckets[BucketAt(pos, i)] == []
    ensures Cascade(s, pos, i) == s
  {
    assert s.buckets[BucketAt(pos, i) := []] == s.buckets;
  }

  lemma CollapseQuiet(s: State, pos: nat)
    requires Bounded(s) && QuietAt(s, pos) && pos / 16 % 256 == 0
    ensures Collapse(s, pos) == s
  {
    CascadeQuiet(s, pos, 1);
    assert SlotOf(pos, 1) == pos / 16 / 256;
    if SlotOf(pos, 1) % WHEEL_SIZE == 0 {
      CascadeQuiet(s, pos, 2);
    }
  }

  lemma TickQuiet(s: State, pos: nat)
    requires Bounded(s) && QuietAt(s, pos)
    ensures Tick(s, pos) == s
  {
    if SlotOf(pos, 0) % WHEEL_SIZE == 0 {
      CollapseQuiet(s, pos);
    }
    assert s.buckets[BucketAt(pos, 0) := []] == s.buckets;
  }

  /** Quiet turns can be skipped. */
  lemma {:induction false} SkipQuiet(s: State, pos: nat, stop: nat)
    requires Bounded(s) && pos <= stop <= s.now + 16 && stop % 16 == pos % 16
    requires forall q | pos <= q < stop :: QuietAt(s, q)
    ensures RunFrom(s, pos) == RunFrom(s, stop)
    decreases stop - pos
  {
    if pos < stop {
      assert QuietAt(s, pos);
      TickQuiet(s, pos);
      SkipQuiet(s, pos + 16, stop);
    }
  }

  /** A history can be extended by one enabled event. */
  lemma {:induction false} ExecSnoc(s: State, events: seq<Event>, e: Event, limit: nat)
    requires Bounded(s) && limit <= MAX_DELAY_US && Legal(s, events, limit)
    requires Enabled(Exec(s, events, limit), e, limit)
    ensures Legal(s, events + [e], limit)
    ensures Exec(s, events + [e], limit) == Apply(Exec(s, events, limit), e, limit)
    decreases |events|
  {
    if events == [] {
      assert (events + [e])[1..] == [];
    } else {
      ExecSnoc(Apply(s, events[0], limit), events[1..], e, limit);
      assert (events + [e])[1..] == events[1..] + [e];
    }
  }

  /** The turn of the loop at `pos` fires a timer that sits alone in the bucket of that position. */
  lemma TickFires(s: State, pos: nat, t: Timer)
    requires Bounded(s) && s.buckets[BucketAt(pos, 0)] == [t]
    requires s.buckets[BucketAt(pos, 1)] == [] && s.buckets[BucketAt(pos, 2)] == []
    ensures Firing(t, s.now) in Tick(s, pos).fired
  {
    if SlotOf(pos, 0) % WHEEL_SIZE == 0 {
      CascadeQuiet(s, pos, 1);
      CascadeQuiet(s, pos, 2);
    }
    var d := Drain(s, BucketAt(pos, 0));
    assert FireAll(d, [t]) == FireAll(Fire(d, t), []);
  }

  /** The log only grows along the loop. */
  lemma {:induction false} RunFromKeepsLog(s: State, pos: nat, f: Firing)
    requires Bounded(s) && f in s.fired
    ensures f in RunFrom(s, pos).fired
    decreases s.now + 1 - pos
  {
    if pos <= s.now {
      TickKeepsLog(s, pos, f);
      RunFromKeepsLog(Tick(s, pos), pos + MIN_DELAY_US, f);
    }
  }

  lemma {:induction false} ReinsertKeepsLog(s: State, ts: seq<Timer>, f: Firing)
    requires Bounded(s) && AllInRange(ts, s.now) && f in s.fired
    ensures f in Reinsert(s, ts).fired
    decreases |ts|
  {
    if ts != [] {
      if ts[0].expires <= s.now {
        ReinsertKeepsLog(Fire(s, ts[0]), ts[1..], f);
      } else {
        ReinsertKeepsLog(Insert(s, ts[0]), ts[1..], f);
      }
    }
  }

  lemma {:induction false} FireAllKeepsLog(s: State, ts: seq<Timer>, f: Firing)
    requires f in s.fired
    ensures f in FireAll(s, ts).fired
    decreases |ts|
  {
    if ts != [] {
      FireAllKeepsLog(Fire(s, ts[0]), ts[1..], f);
    }
  }

  lemma TickKeepsLog(s: State, pos: nat, f: Firing)
    requires Bounded(s) && f in s.fired
    ensures f in Tick(s, pos).fired
  {
    var s1 := s;
    if SlotOf(pos, 0) % WHEEL_SIZE == 0 {
      var k1 := BucketAt(pos, 1);
      ReinsertKeepsLog(Drain(s, k1), s.buckets[k1], f);
      s1 := Cascade(s, pos, 1);
      if SlotOf(pos, 1) % WHEEL_SIZE == 0 {
        var k2 := BucketAt(pos, 2);
        ReinsertKeepsLog(Drain(s1, k2), s1.buckets[k2], f);
        s1 := Cascade(s1, pos, 2);
      }
    }
    var k := BucketAt(pos, 0);
    FireAllKeepsLog(Drain(s1, k), s1.buckets[k], f);
  }

  /** From an unaligned start a longer delay can fire early: the slot of the timer is a full revolution
      ahead. */
  lemma UnalignedFiresEarly(clock: nat, limit: nat)
    requires clock % MIN_DELAY_US != 0 && 4096 - clock % MIN_DELAY_US < limit <= MAX_DELAY_US
    ensures !AlwaysOnTime(clock, limit)
  {
    var t := Timer(0, clock + 4080 - clock % MIN_DELAY_US);
    var s0 := Init(clock);
    WheelIndexMeaning(4096 - clock % MIN_DELAY_US);
    assert Slot(t, 0) == clock / 16 + 256;
    var s1 := Insert(s0, t);
    assert s1.buckets[BucketAt(clock, 0)] == [t];
    TickFires(s1, clock, t);
    assert s1.(now := clock) == s1;
    FiredAtTurn(s1, clock, Firing(t, clock));
    var s2 := Run(s1, clock);
    assert !OnTime(s2);
    ExecSnoc(s0, [], Add(t), limit);
    ExecSnoc(s0, [] + [Add(t)], RunAt(clock), limit);
    assert Exec(s0, [] + [Add(t)] + [RunAt(clock)], limit) == s2;
  }

  /** A run of the empty wheel only moves the clock and the position. */
  lemma RunEmpty(clock: nat, start: nat)
    requires clock % 16 == 0 && start % 16 == 0 && clock <= start
    ensures Run(Init(clock), start) == Init(clock).(now := start, pos := start + 16)
  {
    var s := Init(clock).(now := start);
    forall q | clock <= q < start + 16
      ensures QuietAt(s, q)
    {
    }
    SkipQuiet(s, clock, start + 16);
  }

  /** A state of the wheel with one timer, on the coarsest wheel at slot `turn`. */
  ghost predicate AloneAt(s: State, t: Timer, turn: nat) {
    && Bounded(s)
    && s.buckets[512 + turn % 256] == [t]
    && (forall k | 0 <= k < |s.buckets| && k != 512 + turn % 256 :: s.buckets[k] == [])
  }

  lemma InsertAlone(s: State, t: Timer, turn: nat)
    requires Bounded(s) && (forall k | 0 <= k < |s.buckets| :: s.buckets[k] == [])
    requires t.expires + 16 == s.now + 1048576 && Slot(t, 2) == turn
    ensures InRange(t, s.now) && AloneAt(Insert(s, t), t, turn)
  {
    WheelIndexMeaning(1048576);
    var k := 512 + turn % 256;
    assert Bucket(t, s.now) == k && [t] + s.buckets[k] == [t];
  }

  /** Nothing happens until the boundary of the coarsest wheel ... */
  lemma ReachBoundary(s: State, t: Timer, turn: nat)
    requires AloneAt(s, t, turn) && turn >= 1 && 1048576 * turn <= s.now + 16
    ensures RunFrom(s, 1048576 * (turn - 1) + 4112) == RunFrom(s, 1048576 * turn)
  {
    var pos, boundary := 1048576 * (turn - 1) + 4112, 1048576 * turn;
    forall q | pos <= q < boundary
      ensures QuietAt(s, q)
    {
      QuietBeforeBoundary(s, t, turn, q);
    }
    assert pos % 16 == boundary % 16 by {
      assert pos == 16 * (65536 * (turn - 1) + 257) && boundary == 16 * (65536 * turn);
    }
    SkipQuiet(s, pos, boundary);
  }

  /** ... where the timer is fired although it is due 16 us later. */
  lemma RunToBoundary(s: State, t: Timer, turn: nat)
    requires AloneAt(s, t, turn) && turn >= 1 && t.expires == 1048576 * turn + 4080 && s.now == t.expires - 16
    ensures Firing(t, s.now) in RunFrom(s, 1048576 * (turn - 1) + 4112).fired
  {
    ReachBoundary(s, t, turn);
    BoundaryFires(s, t, turn);
    FiredAtTurn(s, 1048576 * turn, Firing(t, s.now));
  }

  lemma FiredAtTurn(s: State, pos: nat, f: Firing)
    requires Bounded(s) && pos <= s.now && f in Tick(s, pos).fired
    ensures f in RunFrom(s, pos).fired
  {
    RunFromKeepsLog(Tick(s, pos), pos + MIN_DELAY_US, f);
  }

  /** From any aligned start, a rounded delay of 2^20 us can fire early: the cascade out of the
      coarsest wheel picks a slot relative to the clock, not to the position being processed. */
  lemma CoarsestWheelFiresEarly(clock: nat, limit: nat)
    requires clock % MIN_DELAY_US == 0 && 1048576 < limit <= MAX_DELAY_US
    ensures !AlwaysOnTime(clock, limit)
  {
    var turn := clock / 1048576 + 2;
    var start, t := 1048576 * (turn - 1) + 4096, Timer(0, 1048576 * turn + 4080);
    CoarsestRun(clock, turn, start, t);
    ThreeEvents(Init(clock), RunAt(start), Add(t), RunAt(t.expires - 16), limit);
  }

  /** The run: up to `start`, the timer added, up to 16 us before it is due. */
  lemma CoarsestRun(clock: nat, turn: nat, start: nat, t: Timer)
    requires clock % MIN_DELAY_US == 0 && turn == clock / 1048576 + 2 && start == 1048576 * (turn - 1) + 4096
    requires t == Timer(0, 1048576 * turn + 4080)
    ensures clock <= start && InRange(t, Run(Init(clock), start).now)
    ensures Bounded(Insert(Run(Init(clock), start), t))
    ensures !OnTime(Run(Insert(Run(Init(clock), start), t), t.expires - 16))
  {
    RunEmpty(clock, start);
    var s1 := Run(Init(clock), start);
    assert Slot(t, 2) == turn;
    InsertAlone(s1, t, turn);
    var s2 := Insert(s1, t);
    RunToBoundary(s2.(now := t.expires - 16), t, turn);
    var s3 := Run(s2, t.expires - 16);
    assert Firing(t, s3.now) in s3.fired;
  }

  lemma ThreeEvents(s: State, e0: Event, e1: Event, e2: Event, limit: nat)
    requires Bounded(s) && limit <= MAX_DELAY_US && Enabled(s, e0, limit)
    requires Enabled(Apply(s, e0, limit), e1, limit)
    requires Enabled(Apply(Apply(s, e0, limit), e1, limit), e2, limit)
    ensures Legal(s, [e0, e1, e2], limit)
    ensures Exec(s, [e0, e1, e2], limit) == Apply(Apply(Apply(s, e0, limit), e1, limit), e2, limit)
  {
    ExecSnoc(s, [], e0, limit);
    ExecSnoc(s, [] + [e0], e1, limit);
    ExecSnoc(s, [] + [e0] + [e1], e2, limit);
    assert [] + [e0] + [e1] + [e2] == [e0, e1, e2];
  }

  lemma QuietBeforeBoundary(s: State, t: Timer, turn: nat, q: nat)
    requires AloneAt(s, t, turn) && 1 <= turn
    requires 1048576 * (turn - 1) + 16 <= q < 1048576 * turn
    ensures QuietAt(s, q)
  {
    assert q / 16 / 65536 == turn - 1;
    assert q / 16 % 65536 != 0;
  }

  lemma BoundaryFires(s: State, t: Timer, turn: nat)
    requires AloneAt(s, t, turn) && s.now == t.expires - 16 && t.expires == 1048576 * turn + 4080
    ensures Firing(t, s.now) in Tick(s, 1048576 * turn).fired
  {
    var pos := 1048576 * turn;
    assert SlotOf(pos, 2) == turn && SlotOf(pos, 1) == 256 * turn && SlotOf(pos, 0) == 65536 * turn;
    assert SlotOf(pos, 1) % 256 == 0 && SlotOf(pos, 0) % 256 == 0;
    CascadeQuiet(s, pos, 1);
    var d := Drain(s, BucketAt(pos, 2));
    WheelIndexMeaning(32);
    assert Slot(t, 0) == 65536 * turn + 256;
    assert Bucket(t, s.now) == 0;
    var c := Collapse(s, pos);
    assert c == Reinsert(d, [t]) == Insert(d, t);
    assert c.buckets[0] == [t];
    var e := Drain(c, 0);
    assert FireAll(e, [t]) == FireAll(Fire(e, t), []);
  }

  /** Handlers are never early exactly when the wheel starts on a bucket boundary and no rounded delay
      reaches the coarsest wheel, or the rounded delays stay within the first wheel by as much as the start
      is off. */
  lemma SafeExactly(clock: nat, limit: nat)
    requires limit <= MAX_DELAY_US
    ensures AlwaysOnTime(clock, limit) <==>
              (clock % MIN_DELAY_US == 0 && limit <= 1048576) || limit <= 4096 - clock % MIN_DELAY_US
  {
    if Timely(clock % MIN_DELAY_US, limit) {
      TimelyIsOnTime(clock, limit);
    } else if clock % MIN_DELAY_US != 0 {
      UnalignedFiresEarly(clock, limit);
    } else {
      CoarsestWheelFiresEarly(clock, limit);
    }
  }

  // ---------------------------------------------------------------------------------------------
  // The program
  // ---------------------------------------------------------------------------------------------

  /** struct timerwheel, one per CPU. */
  class TimerWheel {
    var nowUs: nat
    var timerPos: nat
    const wheels: array<seq<Timer>>
    var fired: seq<Firing>

    ghost predicate Valid()
      reads this, wheels
    {
      wheels.Length == WHEEL_COUNT * WHEEL_SIZE && Bounded(Model())
    }

    ghost function Model(): State
      reads this, wheels
    {
      State(nowUs, timerPos, wheels[..], fired)
    }

    /** timer_init_cpu at a clock reading. */
    constructor (clock: nat)
      ensures Valid() && fresh(wheels) && Model() == Init(clock)
    {
      nowUs, timerPos, fired := clock, clock, [];
      wheels := new seq<Timer>[WHEEL_COUNT * WHEEL_SIZE](_ => []);
      new;
      assert wheels[..] == Init(clock).buckets;
    }

    /** timer_insert. */
    method TimerInsert(t: Timer)
      requires Valid() && InRange(t, nowUs)
      modifies wheels
      ensures Valid() && Model() == Insert(old(Model()), t)
    {
      var expireUs := t.expires + MIN_DELAY_US;
      var delayUs := expireUs - nowUs;
      WheelIndexMeaning(delayUs);
      var index := WheelIndex(delayUs);
      var offset := SlotOf(expireUs, index) % WHEEL_SIZE;
      var k := WHEEL_SIZE * index + offset;
      wheels[k] := [t] + wheels[k];
      assert Model() == Insert(old(Model()), t);
    }

    /** timer_add: the range check is on the requested delay, the placement on the cached clock. */
    method TimerAdd(id: int, clock: nat, delayUs: nat) returns (ok: bool)
      requires Valid() && nowUs <= clock && 0 < delayUs
      requires delayUs < MAX_DELAY_US ==> clock + delayUs + MIN_DELAY_US - nowUs < MAX_DELAY_US
      modifies wheels
      ensures Valid() && ok == (delayUs < MAX_DELAY_US)
      ensures Model() == if ok then Insert(old(Model()), Timer(id, clock + delayUs)) else old(Model())
    {
      if delayUs >= MAX_DELAY_US {
        return false;
      }
      TimerInsert(Timer(id, clock + delayUs));
      ok := true;
    }

    /** timer_add_for_next_tick. */
    method TimerAddForNextTick(id: int)
      requires Valid()
      modifies wheels
      ensures Valid() && Model() == Insert(old(Model()), Timer(id, nowUs + MIN_DELAY_US))
    {
      TimerInsert(Timer(id, nowUs + MIN_DELAY_US));
    }

    /** timer_run_bucket. */
    method RunBucket(k: nat)
      requires Valid() && k < WHEEL_COUNT * WHEEL_SIZE
      modifies this`fired, wheels
      ensures Valid() && Model() == FireAll(Drain(old(Model()), k), old(wheels[k]))
    {
      var h := wheels[k];
      wheels[k] := [];
      ghost var start := Model();
      assert start == Drain(old(Model()), k);
      while h != []
        invariant wheels.Length == WHEEL_COUNT * WHEEL_SIZE && wheels[..] == start.buckets
        invariant FireAll(Model(), h) == FireAll(start, old(wheels[k]))
        decreases |h|
      {
        fired := fired + [Firing(h[0], nowUs)];
        h := h[1..];
      }
    }

    /** timer_reinsert_bucket. */
    method ReinsertBucket(k: nat) returns (count: nat)
      requires Valid() && k < WHEEL_COUNT * WHEEL_SIZE
      modifies this`fired, wheels
      ensures Valid() && Model() == Reinsert(Drain(old(Model()), k), old(wheels[k]))
      ensures count == |old(wheels[k])|
    {
      var h := wheels[k];
      wheels[k] := [];
      count := 0;
      ghost var start := Model();
      ghost var was := h;
      assert start == Drain(old(Model()), k);
      assert AllInRange(was, nowUs) by {
        assert old(Model()).buckets[k] == was;
      }
      while h != []
        invariant Valid() && AllInRange(h, nowUs)
        invariant Reinsert(Model(), h) == Reinsert(start, was)
        invariant count + |h| == |was|
        decreases |h|
      {
        var t := h[0];
        count := count + 1;
        if t.expires <= nowUs {
          fired := fired + [Firing(t, nowUs)];
        } else {
          TimerInsert(t);
        }
        h := h[1..];
      }
    }

    /** timer_collapse. */
    method TimerCollapse(pos: nat)
      requires Valid()
      modifies this`fired, wheels
      ensures Valid() && Model() == Collapse(old(Model()), pos)
    {
      ghost var m0 := Model();
      var wheel := 1;
      var done := false;
      while wheel < WHEEL_COUNT && !done
        invariant 1 <= wheel <= WHEEL_COUNT && Valid()
        invariant !done ==> Model() == if wheel == 1 then m0
                                       else if wheel == 2 then Cascade(m0, pos, 1)
                                       else Cascade(Cascade(m0, pos, 1), pos, 2)
        invariant done ==> Model() == Collapse(m0, pos)
        invariant wheel >= 2 && !done ==> SlotOf(pos, 1) % WHEEL_SIZE == 0
        invariant wheel == 3 ==> Model() == Collapse(m0, pos)
        decreases WHEEL_COUNT - wheel, !done
      {
        var off := SlotOf(pos, wheel) % WHEEL_SIZE;
        var _ := ReinsertBucket(WHEEL_SIZE * wheel + off);
        done := off != 0;
        wheel := wheel + 1;
      }
    }

    /** timer_run. */
    method TimerRun(clock: nat)
      requires Valid() && nowUs <= clock
      modifies this, wheels
      ensures Valid() && Model() == Run(old(Model()), clock)
    {
      var pos := timerPos;
      nowUs := clock;
      ghost var start := Model();
      assert start == old(Model()).(now := clock);
      while pos <= nowUs
        invariant Valid() && nowUs == clock
        invariant RunFrom(Model(), pos) == RunFrom(start, old(timerPos))
        decreases nowUs + MIN_DELAY_US - pos
      {
        RunFromTurn(Model(), pos);
        RunSlot(pos);
        pos := pos + MIN_DELAY_US;
      }
      timerPos := pos;
    }

    /** One turn of its loop. */
    method RunSlot(pos: nat)
      requires Valid() && pos <= nowUs
      modifies this, wheels
      ensures Valid() && nowUs == old(nowUs) && Model() == Tick(old(Model()), pos)
    {
      var highOff := SlotOf(pos, 0) % WHEEL_SIZE;
      if highOff == 0 {
        TimerCollapse(pos);
      }
      RunBucket(highOff);
    }
  }
}
