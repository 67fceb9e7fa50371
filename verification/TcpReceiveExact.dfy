/** What one arrival and what a whole run does to the receiving side, exactly.

    `ReceiveKnownExactly` says which bytes are known after any arrival, `ReceiveFinExactly` whether the FIN is,
    `AdvancesExactly` when rcv_nxt moves, and `AnnouncedExactly` what the next header announces. `FinExactly` is
    the result over whole runs: the FIN is reported if and only if the whole stream has been delivered and the FIN
    of some arrival was taken in. */
module TcpReceiveExact {
  import opened Common
  import opened Words
  import opened TcpReceive

  // ---------------------------------------------------------------------------------------------
  // The FIN
  // ---------------------------------------------------------------------------------------------

  /** Only the last queued segment can carry the FIN. */
  predicate FinQueued(q: seq<Seg>) {
    q != [] && q[|q| - 1].fin
  }

  /** The FIN has been reported or is queued. */
  predicate FinKnown(s: Rx) {
    s.fin || FinQueued(s.ooseq)
  }

  lemma FinAppend(a: seq<Seg>, b: seq<Seg>)
    requires b != []
    ensures FinQueued(a + b) <==> FinQueued(b)
  {
  }

  lemma {:induction false} AbsorbFin(seg: Seg, q: seq<Seg>, withFin: bool, limit: nat)
    requires Fits(seg, limit) && Ordered(q, limit) && (seg.fin ==> q == [])
    ensures var (c, rest) := Absorb(seg, q, withFin); c.fin || FinQueued(rest) <==> seg.fin || FinQueued(q)
    decreases |q|
  {
    if q != [] && seg.End() >= q[0].End() {
      var rest, seg1 := q[1..], if q[0].fin then seg.(fin := true) else seg;
      OrderedParts(q, limit, 1);
      assert Fits(q[0], limit);
      assert |q| > 1 ==> Before(q[0], q[1]);
      AbsorbFin(seg1, rest, withFin, limit);
      assert rest != [] ==> rest[|rest| - 1] == q[|q| - 1];
    }
  }

  lemma SpliceFin(seg: Seg, next: seq<Seg>, limit: nat)
    requires Fits(seg, limit) && Ordered(next, limit) && GoesBefore(seg, next)
    ensures Splice(seg, next) != [] && (FinQueued(Splice(seg, next)) <==> seg.fin || FinQueued(next))
  {
    if !seg.fin {
      SpliceShape(seg, next, limit);
      AbsorbFin(seg, next, false, limit);
    }
  }

  /** The walk takes the FIN of an arrival, unless it drops the arrival or clips it. */
  ghost predicate FinPlaced(q: seq<Seg>, seg: Seg, right: int) {
    seg.fin && !Dropped(q, seg) && (Within(seg, right) || !Behind(q, seg))
  }

  lemma {:induction false} PlaceFin(q: seq<Seg>, i: nat, seg: Seg, right: int, limit: nat)
    requires i < |q| && seg.seqno < right && Ordered(q, limit) && Fits(seg, limit)
    requires i > 0 ==> q[i - 1].seqno < seg.seqno
    ensures FinQueued(Place(q, i, seg, right)) <==> FinQueued(q) || FinPlaced(q, seg, right)
    decreases |q| - i
  {
    OrderedParts(q, limit, i);
    if seg.seqno == q[i].seqno {
      PlaceFinSame(q, i, seg, right, limit);
    } else if i == 0 && seg.seqno < q[0].seqno {
      NoneDropped(q, 0, seg, limit);
      SpliceFin(seg, q, limit);
    } else if i > 0 && q[i - 1].seqno + 1 <= seg.seqno <= q[i].seqno - 1 {
      NoneDropped(q, i, seg, limit);
      SpliceFin(seg, q[i..], limit);
      FinAppend(q[..i - 1] + [TrimTo(q[i - 1], seg.seqno)], Splice(seg, q[i..]));
    } else if i + 1 == |q| {
      NoneDropped(q, |q|, seg, limit);
      if !q[i].fin {
        FinAppend(q[..i] + [TrimTo(q[i], seg.seqno)], [ClipRight(seg, right)]);
      }
    } else {
      PlaceFin(q, i + 1, seg, right, limit);
    }
  }

  lemma PlaceFinSame(q: seq<Seg>, i: nat, seg: Seg, right: int, limit: nat)
    requires i < |q| && seg.seqno < right && Ordered(q, limit) && Fits(seg, limit) && seg.seqno == q[i].seqno
    ensures FinQueued(Place(q, i, seg, right)) <==> FinQueued(q) || FinPlaced(q, seg, right)
  {
    OrderedParts(q, limit, i);
    assert i < |q| - 1 ==> Before(q[i], q[|q| - 1]);
    if |seg.data| > |q[i].data| {
      forall j | 0 <= j < |q|
        ensures !NoMore(q[j], seg)
      {
        assert j < i ==> Before(q[j], q[i]);
        assert i < j ==> Before(q[i], q[j]);
      }
      SpliceFin(seg, q[i..], limit);
      FinAppend(q[..i], Splice(seg, q[i..]));
    } else {
      assert NoMore(q[i], seg);
    }
  }

  /** All segments before i start lower and those from i on higher. */
  lemma NoneDropped(q: seq<Seg>, i: nat, seg: Seg, limit: nat)
    requires i <= |q| && Ordered(q, limit) && (i > 0 ==> q[i - 1].seqno < seg.seqno)
    requires i < |q| ==> seg.seqno < q[i].seqno
    ensures !Dropped(q, seg) && (i < |q| ==> !Behind(q, seg)) && (i == |q| && q != [] ==> Behind(q, seg))
  {
    forall j | 0 <= j < |q|
      ensures !NoMore(q[j], seg)
    {
      assert j < i - 1 ==> Before(q[j], q[i - 1]);
      assert i < j ==> Before(q[i], q[j]);
    }
    assert i < |q| - 1 ==> Before(q[i], q[|q| - 1]);
  }

  lemma MergeFin(seg: Seg, q: seq<Seg>, limit: nat)
    requires Fits(seg, limit) && Ordered(q, limit) && (q != [] ==> seg.seqno < q[0].seqno)
    ensures var (c, rest) := MergeInOrder(seg, q); c.fin || FinQueued(rest) <==> seg.fin || FinQueued(q)
  {
    if q != [] && !seg.fin {
      AbsorbFin(seg, q, true, limit);
      AbsorbSound(seg, q, true, limit);
    }
  }

  lemma {:induction false} DrainFin(s: Rx, limit: nat)
    requires Ordered(s.ooseq, limit)
    ensures FinKnown(Drain(s)) <==> FinKnown(s)
    decreases |s.ooseq|
  {
    if s.ooseq != [] && s.ooseq[0].seqno == s.nxt {
      var t := Deliver(s, s.ooseq[0]).(ooseq := s.ooseq[1..]);
      OrderedParts(s.ooseq, limit, 1);
      DrainFin(t, limit);
      assert |s.ooseq| > 1 ==> Before(s.ooseq[0], s.ooseq[1]) && t.ooseq[|t.ooseq| - 1] == s.ooseq[|s.ooseq| - 1];
    }
  }

  lemma InOrderFin(s: Rx, seg: Seg, st: Stream)
    requires Invariant(s, st) && !s.fin && CutFrom(seg, st) && seg.TcpLen() > 0
    requires seg.seqno == s.nxt && 0 < s.wnd
    ensures FinKnown(InOrder(s, seg)) <==> FinKnown(s) || (seg.fin && Within(seg, s.nxt + s.wnd))
  {
    var c0 := ClipRight(seg, s.nxt + s.wnd);
    ClipRightCut(seg, s.nxt + s.wnd, st);
    MergeSound(c0, s.ooseq, st);
    MergeFin(c0, s.ooseq, st.End());
    var (c, rest) := MergeInOrder(c0, s.ooseq);
    DrainFin(Deliver(s, c).(ooseq := rest), st.End());
  }

  /** The FIN of an arrival is taken in: in sequence if it lies in the window; out of sequence if memory is found,
      the arrival starts in the window, is not dropped and is not clipped. */
  ghost predicate FinTaken(s: Rx, seg: Seg, copied: bool) {
    var right := s.nxt + s.wnd;
    seg.fin &&
    if seg.seqno <= s.nxt then Within(seg, right)
    else copied && seg.seqno < right && FinPlaced(s.ooseq, seg, right)
  }

  lemma OutOfOrderFin(s: Rx, t: Seg, copied: bool, acked: bool, limit: nat)
    requires Ordered(s.ooseq, limit) && Fits(t, limit) && t.TcpLen() > 0 && !s.fin
    requires s.nxt < t.seqno < s.nxt + s.wnd
    ensures FinKnown(Receive(s, t, copied, acked)) <==> FinKnown(s) || FinTaken(s, t, copied)
  {
    if s.ooseq != [] {
      PlaceFin(s.ooseq, 0, t, s.nxt + s.wnd, limit);
    }
  }

  /** The FIN is known after any arrival exactly if it was known before or that of the arrival is taken in; so it
      is never forgotten. */
  lemma ReceiveFinExactly(s: Rx, seg: Seg, copied: bool, acked: bool, st: Stream)
    requires Invariant(s, st) && CutFrom(seg, st)
    ensures FinKnown(Receive(s, seg, copied, acked)) <==> FinKnown(s) || FinTaken(s, seg, copied)
  {
    if seg.TcpLen() != 0 && !s.fin {
      var t := TrimFront(seg, s.nxt);
      TrimFrontCut(seg, s.nxt, st);
      if s.nxt <= t.seqno <= s.nxt + s.wnd - 1 {
        if t.seqno == s.nxt {
          InOrderFin(s, t, st);
        } else {
          OutOfOrderFin(s, t, copied, acked, st.End());
        }
      }
    }
  }

  /** Some arrival of the run had its FIN taken in. */
  ghost predicate FinTakenIn(s: Rx, events: seq<Event>)
    decreases |events|
  {
    events != [] &&
      ((events[0].Arrive? && FinTaken(s, events[0].seg, events[0].copied)) ||
       FinTakenIn(Apply(s, events[0]), events[1..]))
  }

  lemma {:induction false} ExecFin(s: Rx, events: seq<Event>, st: Stream)
    requires Invariant(s, st) && FromStream(events, st)
    ensures FinKnown(Exec(s, events)) <==> FinKnown(s) || FinTakenIn(s, events)
    decreases |events|
  {
    if events != [] {
      var s1 := Apply(s, events[0]);
      match events[0] {
        case Arrive(seg, copied, acked) =>
          assert events[0] in events;
          ReceiveInvariant(s, seg, copied, acked, st);
          ReceiveFinExactly(s, seg, copied, acked, st);
        case Consume(len) =>
        case Send =>
      }
      ExecFin(s1, events[1..], st);
    }
  }

  /** A FIN that is known is reported exactly when everything before it has been delivered. */
  lemma FinLast(s: Rx, st: Stream)
    requires Invariant(s, st)
    ensures s.fin <==> s.delivered == st.bytes && FinKnown(s)
  {
    if FinQueued(s.ooseq) {
      var k := |s.ooseq| - 1;
      assert Fits(s.ooseq[k], st.End());
      assert k > 0 ==> Before(s.ooseq[0], s.ooseq[k]);
    }
  }

  /** Over every run, with arrivals of any kind: the FIN is reported if and only if the whole stream has been
      delivered and the FIN of some arrival was taken in. */
  lemma FinExactly(st: Stream, mss: nat, events: seq<Event>)
    requires FromStream(events, st)
    ensures var s := Exec(Opened(st, mss), events);
      s.fin <==> s.delivered == st.bytes && FinTakenIn(Opened(st, mss), events)
  {
    ExecInvariant(Opened(st, mss), events, st);
    ExecFin(Opened(st, mss), events, st);
    FinLast(Exec(Opened(st, mss), events), st);
  }

  ghost predicate AllArrived(events: seq<Event>, st: Stream) {
    forall p | st.base <= p < st.End() :: Arrived(events, p)
  }

  ghost predicate FinArrived(events: seq<Event>) {
    exists e | e in events :: e.Arrive? && e.seg.fin
  }

  /** No arrival with a FIN finds a queued segment with the same start and the same data. */
  ghost predicate FinsFresh(s: Rx, events: seq<Event>)
    decreases |events|
  {
    events != [] ==>
      && (events[0].Arrive? && events[0].seg.fin && s.nxt < events[0].seg.seqno ==> !Dropped(s.ooseq, events[0].seg))
      && FinsFresh(Apply(s, events[0]), events[1..])
  }

  lemma {:induction false} LosslessFin(s: Rx, events: seq<Event>)
    requires Lossless(s, events)
    ensures FinTakenIn(s, events) ==> FinArrived(events)
    ensures FinsFresh(s, events) && FinArrived(events) ==> FinTakenIn(s, events)
    decreases |events|
  {
    if events != [] {
      var e, rest := events[0], events[1..];
      assert events == [e] + rest;
      LosslessFin(Apply(s, e), rest);
      if e.Arrive? && e.seg.fin {
        assert e in events;
        assert KeptWhole(s, e.seg, e.copied) && Within(e.seg, s.nxt + s.wnd);
      }
    }
  }

  /** If every arrival was kept whole, the FIN is reported if and only if every byte of the stream has arrived and a
      FIN was taken in; and if no FIN came with data that was queued already, if and only if every byte and a FIN
      have arrived. */
  lemma FinComplete(st: Stream, mss: nat, events: seq<Event>)
    requires FromStream(events, st) && Lossless(Opened(st, mss), events)
    ensures var s := Opened(st, mss);
      && (Exec(s, events).fin <==> AllArrived(events, st) && FinTakenIn(s, events))
      && (FinsFresh(s, events) ==> (Exec(s, events).fin <==> AllArrived(events, st) && FinArrived(events)))
  {
    var s := Exec(Opened(st, mss), events);
    FinExactly(st, mss, events);
    LosslessFin(Opened(st, mss), events);
    ReassemblySafe(st, mss, events);
    ReassemblyComplete(st, mss, events);
    assert |s.delivered| < |st.bytes| ==> !Arrived(events, st.base + |s.delivered|);
    assert |s.delivered| == |st.bytes| <==> s.delivered == st.bytes;
  }

  /** The FIN that goes unnoticed: the last byte out of sequence, the same byte again with the FIN, then the rest.
      Everything has arrived and been kept, and no FIN is reported. */
  lemma FinForgotten(st: Stream, mss: nat) returns (events: seq<Event>)
    requires 2 <= |st.bytes| < TCP_WND
    ensures FromStream(events, st) && Lossless(Opened(st, mss), events)
    ensures AllArrived(events, st) && FinArrived(events)
    ensures var s := Exec(Opened(st, mss), events); s.delivered == st.bytes && !s.fin
  {
    var s0, at := Opened(st, mss), st.End() - 1;
    var last, front := Cut(st, at, st.End()), Cut(st, st.base, at);
    var again := last.(fin := true);
    events := [Arrive(last, true, false), Arrive(again, true, false), Arrive(front, true, false)];
    ForgottenSteps(s0, last, again, front, events);
    AllThree(st, front, last, again, events);
    FinExactly(st, mss, events);
    ReassemblyComplete(st, mss, events);
    ReassemblySafe(st, mss, events);
  }

  lemma ForgottenSteps(s: Rx, last: Seg, again: Seg, front: Seg, events: seq<Event>)
    requires s.ooseq == [] && !s.fin && front.seqno == s.nxt && !front.fin && !last.fin && again == last.(fin := true)
    requires s.nxt < front.End() == last.seqno && |last.data| == 1 && again.seqno + 2 <= s.nxt + s.wnd
    requires events == [Arrive(last, true, false), Arrive(again, true, false), Arrive(front, true, false)]
    ensures Lossless(s, events) && !FinTakenIn(s, events)
  {
    var s1 := s.(ooseq := [last]);
    FarQueued(s, last);
    assert NoMore(s1.ooseq[0], again) && Receive(s1, again, true, false) == s1;
    ExecThree(s, events[0], events[1], events[2], s1, s1);
    assert events[1..] == [events[1], events[2]] && [events[1], events[2]][1..] == [events[2]];
    assert Lossless(s1, [events[2]]) && Lossless(s1, [events[1], events[2]]);
  }

  lemma ExecThree(s: Rx, a: Event, b: Event, c: Event, s1: Rx, s2: Rx)
    requires Apply(s, a) == s1 && Apply(s1, b) == s2
    ensures Exec(s, [a, b, c]) == Apply(s2, c)
    ensures FinTakenIn(s, [a, b, c]) <==>
              (a.Arrive? && FinTaken(s, a.seg, a.copied)) || (b.Arrive? && FinTaken(s1, b.seg, b.copied)) ||
              (c.Arrive? && FinTaken(s2, c.seg, c.copied))
  {
    var bc, one := [b, c], [c];
    assert [a, b, c][1..] == bc && bc[1..] == one && one[1..] == [];
    assert Exec(s1, bc) == Exec(s2, one) == Exec(Apply(s2, c), []);
    assert FinTakenIn(s2, one) <==> c.Arrive? && FinTaken(s2, c.seg, c.copied);
    assert FinTakenIn(s1, bc) <==> (b.Arrive? && FinTaken(s1, b.seg, b.copied)) || FinTakenIn(s2, one);
  }

  lemma AllThree(st: Stream, front: Seg, last: Seg, again: Seg, events: seq<Event>)
    requires |st.bytes| >= 2 && front.seqno == st.base && front.End() == last.seqno && last.End() == st.End()
    requires again == last.(fin := true)
    requires events == [Arrive(last, true, false), Arrive(again, true, false), Arrive(front, true, false)]
    ensures AllArrived(events, st) && FinArrived(events)
  {
    assert events[1] in events && events[0] in events && events[2] in events;
    forall p | st.base <= p < st.End()
      ensures Arrived(events, p)
    {
      assert Holds((if p < last.seqno then events[2] else events[0]).seg, p);
    }
  }

  // ---------------------------------------------------------------------------------------------
  // The bytes
  // ---------------------------------------------------------------------------------------------

  /** What the walk takes of an arrival: behind the last queued segment it is clipped to the window. */
  function Clipped(q: seq<Seg>, seg: Seg, right: int): Seg
    requires seg.seqno < right
  {
    if Behind(q, seg) then ClipRight(seg, right) else seg
  }

  /** Byte p is queued in a segment that the arrival lies strictly inside of, and is behind the arrival. */
  ghost predicate Lost(q: seq<Seg>, seg: Seg, p: int) {
    exists j | 0 <= j < |q| :: StrictlyWithin(q[j], seg) && seg.End() <= p < q[j].End()
  }

  lemma NothingLost(q: seq<Seg>, i: nat, seg: Seg, p: int, limit: nat)
    requires i <= |q| && Ordered(q, limit)
    requires i > 0 ==> q[i - 1].seqno <= seg.seqno && (q[i - 1].End() <= seg.seqno || q[i - 1].fin)
    requires i < |q| ==> seg.seqno <= q[i].seqno
    ensures !Lost(q, seg, p)
  {
    forall j | 0 <= j < |q|
      ensures !StrictlyWithin(q[j], seg)
    {
      assert j < i - 1 ==> Before(q[j], q[i - 1]);
      assert i < j ==> Before(q[i], q[j]);
    }
  }

  /** After cutting q[j] at an arrival, followed by b. */
  lemma CutAfterExactly(q: seq<Seg>, j: nat, seg: Seg, b: seq<Seg>, limit: nat, p: int)
    requires j < |q| && Ordered(q, limit) && q[j].seqno < seg.seqno && !q[j].fin
    requires j + 1 < |q| ==> seg.seqno < q[j + 1].seqno
    requires Queued(b, p) <==> Holds(seg, p) || Queued(q[j + 1..], p)
    ensures Queued(CutAfter(q, j, seg.seqno, b), p) <==> (Queued(q, p) && !Lost(q, seg, p)) || Holds(seg, p)
  {
    CutAfterHolds(q, j, seg.seqno, b, p);
    forall i | 0 <= i < |q| && i != j
      ensures !StrictlyWithin(q[i], seg)
    {
      assert i < j ==> Before(q[i], q[j]);
      assert i > j + 1 ==> Before(q[j + 1], q[i]);
    }
    assert Lost(q, seg, p) <==> StrictlyWithin(q[j], seg) && seg.End() <= p < q[j].End();
    if StrictlyWithin(q[j], seg) && seg.End() <= p < q[j].End() {
      NotQueuedAbove(q[..j], q[j].seqno, p) by {
        forall k | 0 <= k < j
          ensures q[..j][k].End() <= q[j].seqno
        {
          assert Before(q[k], q[j]);
        }
      }
      OrderedParts(q, limit, j + 1);
      assert j + 1 < |q| ==> Before(q[j], q[j + 1]);
      NotQueuedBelow(q[j + 1..], limit, p);
    }
  }

  /** Which bytes are queued after the walk: all that were, but for those lost, and those taken of the arrival. */
  lemma {:induction false} PlaceKnown(q: seq<Seg>, i: nat, seg: Seg, right: int, limit: nat, p: int)
    requires i < |q| && seg.seqno < right && Ordered(q, limit) && Fits(seg, limit)
    requires i > 0 ==> q[i - 1].seqno < seg.seqno
    ensures var c := Clipped(q, seg, right);
      Queued(Place(q, i, seg, right), p) <==> (Queued(q, p) && !Lost(q, c, p)) || Holds(c, p)
    decreases |q| - i
  {
    assert i > 0 ==> Before(q[i - 1], q[i]);
    if seg.seqno == q[i].seqno {
      PlaceKnownSame(q, i, seg, right, limit, p);
    } else if i == 0 && seg.seqno < q[0].seqno {
      NoneDropped(q, 0, seg, limit);
      NothingLost(q, 0, seg, p, limit);
      SpliceHolds(seg, q, limit, p);
    } else if i > 0 && q[i - 1].seqno + 1 <= seg.seqno <= q[i].seqno - 1 {
      PlaceKnownBetween(q, i, seg, right, limit, p);
    } else if i + 1 == |q| {
      PlaceKnownLast(q, i, seg, right, limit, p);
    } else {
      PlaceKnown(q, i + 1, seg, right, limit, p);
    }
  }

  lemma PlaceKnownSame(q: seq<Seg>, i: nat, seg: Seg, right: int, limit: nat, p: int)
    requires i < |q| && seg.seqno < right && Ordered(q, limit) && Fits(seg, limit) && seg.seqno == q[i].seqno
    ensures var c := Clipped(q, seg, right);
      Queued(Place(q, i, seg, right), p) <==> (Queued(q, p) && !Lost(q, c, p)) || Holds(c, p)
  {
    assert i < |q| - 1 ==> Before(q[i], q[|q| - 1]);
    assert i > 0 ==> Before(q[i - 1], q[i]);
    NothingLost(q, i, seg, p, limit);
    if |seg.data| > |q[i].data| {
      SpliceAtHolds(q, i, seg, limit, p);
    } else if Holds(seg, p) {
      QueuedAt(q, i, p);
    }
  }

  lemma PlaceKnownBetween(q: seq<Seg>, i: nat, seg: Seg, right: int, limit: nat, p: int)
    requires 0 < i < |q| && seg.seqno < right && Ordered(q, limit) && Fits(seg, limit)
    requires q[i - 1].seqno + 1 <= seg.seqno <= q[i].seqno - 1
    ensures var c := Clipped(q, seg, right);
      Queued(Place(q, i, seg, right), p) <==> (Queued(q, p) && !Lost(q, c, p)) || Holds(c, p)
  {
    var spliced := Splice(seg, q[i..]);
    assert Before(q[i - 1], q[i]);
    NoneDropped(q, i, seg, limit);
    OrderedParts(q, limit, i);
    SpliceHolds(seg, q[i..], limit, p);
    CutAfterExactly(q, i - 1, seg, spliced, limit, p);
    assert Place(q, i, seg, right) == CutAfter(q, i - 1, seg.seqno, spliced);
  }

  lemma PlaceKnownLast(q: seq<Seg>, i: nat, seg: Seg, right: int, limit: nat, p: int)
    requires i + 1 == |q| && seg.seqno < right && Ordered(q, limit) && Fits(seg, limit) && q[i].seqno < seg.seqno
    requires !(i > 0 && q[i - 1].seqno + 1 <= seg.seqno <= q[i].seqno - 1)
    ensures var c := Clipped(q, seg, right);
      Queued(Place(q, i, seg, right), p) <==> (Queued(q, p) && !Lost(q, c, p)) || Holds(c, p)
  {
    var c := ClipRight(seg, right);
    if !q[i].fin {
      QueuedCons(c, [], p);
      assert [c] + [] == [c] && q[i + 1..] == [];
      CutAfterExactly(q, i, c, [c], limit, p);
      assert Place(q, i, seg, right) == CutAfter(q, i, c.seqno, [c]);
    } else {
      NothingLost(q, i + 1, c, p, limit);
      assert Fits(q[i], limit);
      if Holds(c, p) {
        QueuedAt(q, i, p);
      }
    }
  }

  lemma EnqueueKnown(q: seq<Seg>, seg: Seg, right: int, limit: nat, p: int)
    requires seg.seqno < right && Ordered(q, limit) && Fits(seg, limit)
    ensures var c := Clipped(q, seg, right);
      Queued(Enqueue(q, seg, right), p) <==> (Queued(q, p) && !Lost(q, c, p)) || Holds(c, p)
  {
    if q == [] {
      QueuedCons(seg, [], p);
      assert [seg] + [] == [seg];
    } else {
      PlaceKnown(q, 0, seg, right, limit, p);
    }
  }

  /** In sequence everything up to the window edge is taken, and nothing lost. */
  lemma InOrderKnownExactly(s: Rx, seg: Seg, st: Stream, p: int)
    requires Invariant(s, st) && !s.fin && CutFrom(seg, st) && seg.TcpLen() > 0
    requires seg.seqno == s.nxt && 0 < s.wnd
    ensures Known(InOrder(s, seg), st, p) <==> Known(s, st, p) || (Holds(seg, p) && p < s.nxt + s.wnd)
  {
    var c := ClipRight(seg, s.nxt + s.wnd);
    ClipRightCut(seg, s.nxt + s.wnd, st);
    ClippedTwice(s, seg, c);
    InOrderKnown(s, c, st, p);
  }

  /** An arrival that is queued, if memory is found. */
  predicate OutOfOrder(s: Rx, seg: Seg) {
    !s.fin && seg.TcpLen() > 0 && s.nxt < seg.seqno < s.nxt + s.wnd
  }

  /** Byte p of an arrival is taken in. */
  predicate Taken(s: Rx, seg: Seg, copied: bool, p: int) {
    var right := s.nxt + s.wnd;
    && !s.fin && Holds(seg, p)
    && if seg.seqno <= s.nxt then p < right
       else copied && seg.seqno < right && Holds(Clipped(s.ooseq, seg, right), p)
  }

  /** Byte p is lost to an arrival. */
  ghost predicate LostTo(s: Rx, seg: Seg, copied: bool, p: int) {
    copied && OutOfOrder(s, seg) && Lost(s.ooseq, Clipped(s.ooseq, seg, s.nxt + s.wnd), p)
  }

  /** Which bytes have been delivered or are queued after any arrival: those that were before, but for those lost
      to it, and those taken of it. */
  lemma ReceiveKnownExactly(s: Rx, seg: Seg, copied: bool, acked: bool, st: Stream, p: int)
    requires Invariant(s, st) && CutFrom(seg, st)
    ensures Known(Receive(s, seg, copied, acked), st, p) <==>
              (Known(s, st, p) && !LostTo(s, seg, copied, p)) || Taken(s, seg, copied, p)
  {
    if seg.TcpLen() != 0 && !s.fin {
      var t := TrimFront(seg, s.nxt);
      TrimFrontCut(seg, s.nxt, st);
      if s.nxt <= t.seqno <= s.nxt + s.wnd - 1 {
        if t.seqno == s.nxt {
          InOrderKnownExactly(s, t, st, p);
        } else if copied {
          QueueKnown(s, seg, st, p);
        }
      }
    }
  }

  lemma QueueKnown(s: Rx, seg: Seg, st: Stream, p: int)
    requires Invariant(s, st) && CutFrom(seg, st) && OutOfOrder(s, seg)
    ensures var q := Enqueue(s.ooseq, seg, s.nxt + s.wnd);
      p < st.base + |s.delivered| || Queued(q, p) <==>
        (Known(s, st, p) && !LostTo(s, seg, true, p)) || Taken(s, seg, true, p)
  {
    EnqueueKnown(s.ooseq, seg, s.nxt + s.wnd, st.End(), p);
    if p < st.base + |s.delivered| {
      NotLostBelow(s, seg, st, p);
    }
  }

  lemma NotLostBelow(s: Rx, seg: Seg, st: Stream, p: int)
    requires Invariant(s, st) && s.nxt < seg.seqno < s.nxt + s.wnd && p < st.base + |s.delivered|
    ensures !Lost(s.ooseq, Clipped(s.ooseq, seg, s.nxt + s.wnd), p)
  {
  }

  // ---------------------------------------------------------------------------------------------
  // rcv_nxt and what is announced
  // ---------------------------------------------------------------------------------------------

  lemma {:induction false} DrainUp(s: Rx)
    ensures s.nxt <= Drain(s).nxt
    decreases |s.ooseq|
  {
    if s.ooseq != [] && s.ooseq[0].seqno == s.nxt {
      DrainUp(Deliver(s, s.ooseq[0]).(ooseq := s.ooseq[1..]));
    }
  }

  /** Something is left of an in-sequence segment after the merge. */
  lemma MergeLeaves(seg: Seg, q: seq<Seg>, limit: nat)
    requires seg.TcpLen() > 0 && Ordered(q, limit) && (q != [] ==> seg.seqno < q[0].seqno)
    ensures MergeInOrder(seg, q).0.seqno == seg.seqno && MergeInOrder(seg, q).0.TcpLen() > 0
  {
    if q != [] && !seg.fin {
      RestIsLater(seg, q, true, limit);
    }
  }

  lemma DeliverAdvances(s: Rx, c: Seg, rest: seq<Seg>)
    requires c.seqno == s.nxt && c.TcpLen() > 0
    ensures s.nxt < Drain(Deliver(s, c).(ooseq := rest)).nxt
  {
    DrainUp(Deliver(s, c).(ooseq := rest));
  }

  lemma InOrderAdvances(s: Rx, seg: Seg, limit: nat)
    requires Ordered(s.ooseq, limit) && (s.ooseq != [] ==> s.nxt < s.ooseq[0].seqno)
    requires seg.TcpLen() > 0 && seg.seqno == s.nxt && 0 < s.wnd
    ensures s.nxt < InOrder(s, seg).nxt
  {
    var c0 := ClipRight(seg, s.nxt + s.wnd);
    MergeLeaves(c0, s.ooseq, limit);
    var (c, rest) := MergeInOrder(c0, s.ooseq);
    DeliverAdvances(s, c, rest);
  }

  /** The sequence number that is next lies in the arrival, payload or FIN, and the window is open. */
  predicate Covers(s: Rx, seg: Seg) {
    !s.fin && 0 < s.wnd && seg.seqno <= s.nxt < seg.seqno + seg.TcpLen()
  }

  /** An arrival moves rcv_nxt exactly if it covers it, a FIN on its own included. Otherwise nothing is delivered, and
      if an acknowledgement can be sent it announces the window. */
  lemma AdvancesExactly(s: Rx, seg: Seg, copied: bool, acked: bool, st: Stream)
    requires Invariant(s, st) && CutFrom(seg, st)
    ensures var r := Receive(s, seg, copied, acked);
      && (s.nxt < r.nxt <==> Covers(s, seg))
      && (!Covers(s, seg) ==> r.nxt == s.nxt && r.wnd == s.wnd && r.annWnd == s.annWnd)
      && r.annEdge == if !Covers(s, seg) && acked && !s.fin && seg.TcpLen() > 0 then s.nxt + s.annWnd else s.annEdge
  {
    if seg.TcpLen() != 0 && !s.fin {
      var t := TrimFront(seg, s.nxt);
      TrimFrontCut(seg, s.nxt, st);
      if s.nxt <= t.seqno <= s.nxt + s.wnd - 1 && t.seqno == s.nxt {
        InOrderAdvances(s, t, st.End());
        InOrderWindow(s, t);
      }
    }
  }

  /** The edge worth announcing: that of the whole window if that is at least the smaller of half the window and the
      segment size further than what was announced; otherwise what was announced, or rcv_nxt when that is beyond. */
  function WorthEdge(s: Rx): int {
    var right := s.nxt + s.wnd;
    if right - s.annEdge >= Min(TCP_WND / 2, s.mss) then right
    else if s.annEdge < s.nxt then s.nxt else s.annEdge
  }

  /** What the next header announces is the edge worth announcing. */
  predicate Announcing(s: Rx) {
    s.nxt + s.annWnd == WorthEdge(s)
  }

  lemma {:induction false} DrainAnnouncing(s: Rx)
    requires Announcing(s)
    ensures Announcing(Drain(s))
    decreases |s.ooseq|
  {
    if s.ooseq != [] && s.ooseq[0].seqno == s.nxt {
      DrainAnnouncing(Deliver(s, s.ooseq[0]).(ooseq := s.ooseq[1..]));
    }
  }

  lemma AnnounceAnnouncing(s: Rx)
    requires Announcing(s) && WindowOk(s)
    ensures Announcing(Announce(s))
  {
  }

  lemma ReceiveAnnouncing(s: Rx, seg: Seg, copied: bool, acked: bool)
    requires Announcing(s) && WindowOk(s)
    ensures Announcing(Receive(s, seg, copied, acked))
  {
    AnnounceAnnouncing(s);
    if seg.TcpLen() != 0 && !s.fin {
      var t := TrimFront(seg, s.nxt);
      if s.nxt <= t.seqno <= s.nxt + s.wnd - 1 && t.seqno == s.nxt {
        var (c, rest) := MergeInOrder(ClipRight(t, s.nxt + s.wnd), s.ooseq);
        DrainAnnouncing(Deliver(s, c).(ooseq := rest));
      }
    }
  }

  lemma {:induction false} ExecAnnouncing(s: Rx, events: seq<Event>)
    requires Announcing(s) && WindowHolds(s, events)
    ensures Announcing(Exec(s, events))
    decreases |events|
  {
    if events != [] {
      match events[0] {
        case Arrive(seg, copied, acked) => ReceiveAnnouncing(s, seg, copied, acked);
        case Consume(len) =>
        case Send => AnnounceAnnouncing(s);
      }
      ExecAnnouncing(Apply(s, events[0]), events[1..]);
    }
  }

  /** How much the application has given back to the window: what it consumed, up to the whole window. */
  ghost function GivenBack(s: Rx, events: seq<Event>): int
    decreases |events|
  {
    if events == [] then 0
    else (if events[0].Consume? then Min(events[0].len, TCP_WND - s.wnd) else 0)
         + GivenBack(Apply(s, events[0]), events[1..])
  }

  lemma {:induction false} ExecWnd(s: Rx, events: seq<Event>)
    requires EdgeKept(s) && WindowHolds(s, events)
    ensures var r := Exec(s, events); r.nxt + r.wnd == s.nxt + s.wnd + GivenBack(s, events)
    decreases |events|
  {
    if events != [] {
      match events[0] {
        case Arrive(seg, copied, acked) => ReceiveEdge(s, seg, copied, acked);
        case Consume(len) =>
        case Send =>
      }
      ExecWnd(Apply(s, events[0]), events[1..]);
    }
  }

  /** Over every run in which no arrival is queued past the window: the right edge of the window is that of the start
      and what the application has given back, so that rcv_wnd is TCP_WND less what was received and not given back;
      and the next header announces the edge worth announcing (section 4.2.3.3 of RFC 1122). */
  lemma AnnouncedExactly(st: Stream, mss: nat, events: seq<Event>)
    requires FromStream(events, st) && NoOverrun(Opened(st, mss), events)
    ensures var s0 := Opened(st, mss); var s := Exec(s0, events);
      && s.wnd == TCP_WND - (s.nxt - st.base - GivenBack(s0, events))
      && s.nxt + s.annWnd == WorthEdge(s)
  {
    WindowExactly(st, mss, events);
    ExecAnnouncing(Opened(st, mss), events);
    ExecWnd(Opened(st, mss), events);
  }
}
