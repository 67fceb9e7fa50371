/** Runs of the sending side that need no order of the queues, and runs that lose it.

    `AccountsAlways` says which counters hold whatever happens; the other results reach, from an established
    connection, the states in which the theorems of `TcpSend` say that something goes wrong. */
module TcpSendRuns {
  import opened Common
  import opened Words
  import opened TcpSend

  // ---------------------------------------------------------------------------------------------
  // Counters that do not depend on the order
  // ---------------------------------------------------------------------------------------------

  ghost predicate NoneEmpty(q: seq<Seg>) {
    forall i | 0 <= i < |q| :: q[i].Len() > 0
  }

  /** The queue length counts the buffers, and the space left is the buffer less what is unacknowledged. */
  ghost predicate Counted(s: Pcb) {
    && s.qlen == Bufs(s.unacked) + Bufs(s.unsent)
    && 0 <= s.buf && s.buf + s.lbb - s.lastack == TCP_SND_BUF
    && NoneEmpty(s.unacked) && NoneEmpty(s.unsent)
  }

  lemma {:induction false} InsertSortedCounts(q: seq<Seg>, seg: Seg)
    requires NoneEmpty(q) && seg.Len() > 0
    ensures Bufs(InsertSorted(q, seg)) == Bufs(q) + seg.clen && NoneEmpty(InsertSorted(q, seg))
    decreases |q|
  {
    var r := InsertSorted(q, seg);
    if q == [] || q[0].seqno >= seg.seqno {
      assert r[1..] == q;
    } else {
      InsertSortedCounts(q[1..], seg);
      assert r[1..] == InsertSorted(q[1..], seg);
    }
  }

  lemma InsertCounts(q: seq<Seg>, seg: Seg)
    requires NoneEmpty(q) && seg.Len() > 0
    ensures Bufs(Insert(q, seg)) == Bufs(q) + seg.clen && NoneEmpty(Insert(q, seg))
  {
    InsertSortedCounts(q, seg);
    BufsAppend(q, [seg], q + [seg]);
    assert [seg][1..] == [];
  }

  lemma SendOneCounted(s: Pcb)
    requires Counted(s) && s.unsent != []
    ensures Counted(SendOne(s))
  {
    InsertCounts(s.unacked, s.unsent[0]);
  }

  lemma {:induction false} SendLoopCounted(s: Pcb)
    requires Counted(s)
    ensures Counted(SendLoop(s))
    decreases |s.unsent|
  {
    if CanSend(s) {
      SendOneCounted(s);
      SendLoopCounted(SendOne(s));
    }
  }

  lemma OutputCounted(s: Pcb, ackNow: bool)
    requires Counted(s)
    ensures Counted(OutputNow(s, ackNow))
  {
    SendLoopCounted(s);
  }

  lemma RexmitCounted(s: Pcb)
    requires Counted(s)
    ensures Counted(Rexmit(s)) && Counted(RexmitRto(s))
  {
    BufsAppend(s.unacked, s.unsent, s.unacked + s.unsent);
    if s.unacked != [] {
      InsertSortedCounts(s.unsent, s.unacked[0]);
    }
  }

  lemma AckCounted(s: Pcb, ackno: int, update: bool, wnd: nat)
    requires Counted(s)
    ensures Counted(Ack(s, ackno, update, wnd))
  {
    if ackno <= s.nxt {
      var k := if ackno > s.lastack then Covered(s.unacked, ackno) else 0;
      var j := Covered(s.unsent, ackno);
      AckBufs(s.unacked, k);
      AckBufs(s.unsent, j);
    }
  }

  lemma FinCounted(s: Pcb, mem: nat)
    requires Counted(s)
    ensures Counted(SendFin(s, mem).0)
  {
    if s.unsent != [] && !s.unsent[|s.unsent| - 1].fin {
      MarkedCounted(s.unsent, |s.unsent| - 1);
    } else {
      EnqueueCounted(s, mem);
    }
  }

  lemma EnqueueCounted(s: Pcb, mem: nat)
    requires Counted(s)
    ensures Counted(EnqueueFin(s, mem).0)
  {
    AddedCounted(s.unsent, Seg(s.lbb, [], true, 1));
  }

  lemma MarkedCounted(q: seq<Seg>, k: nat)
    requires NoneEmpty(q) && k < |q|
    ensures var r := q[k := q[k].(fin := true)]; NoneEmpty(r) && Bufs(r) == Bufs(q)
  {
    var seg := q[k].(fin := true);
    BufsUpdate(q, k, seg, q[k := seg]);
  }

  lemma AddedCounted(q: seq<Seg>, seg: Seg)
    requires NoneEmpty(q) && seg.Len() > 0
    ensures NoneEmpty(q + [seg]) && Bufs(q + [seg]) == Bufs(q) + seg.clen
  {
    BufsAppend(q, [seg], q + [seg]);
    assert [seg][1..] == [];
  }

  lemma ExtendedCounted(s: Pcb, data: seq<byte>)
    requires NoneEmpty(s.unsent) && Joined(s, |data|) <= |data|
    ensures NoneEmpty(Extended(s, data))
    ensures Bufs(Extended(s, data)) == Bufs(s.unsent) + if Chain(s, |data|) > 0 then 1 else 0
  {
    if s.unsent != [] {
      var k := |s.unsent| - 1;
      var last := s.unsent[k].(data := s.unsent[k].data + data[..Joined(s, |data|)],
                               clen := s.unsent[k].clen + if Chain(s, |data|) > 0 then 1 else 0);
      assert Extended(s, data) == s.unsent[k := last];
      BufsUpdate(s.unsent, k, last, s.unsent[k := last]);
    }
  }

  lemma ChunksCounted(data: seq<byte>, seqno: int, mss: nat, clen: nat)
    requires mss > 0
    ensures NoneEmpty(Chunks(data, seqno, mss, clen))
    ensures Bufs(Chunks(data, seqno, mss, clen)) == clen * |Chunks(data, seqno, mss, clen)|
  {
    ChunksTile(data, seqno, mss, clen);
    forall i | 0 <= i < |Chunks(data, seqno, mss, clen)|
      ensures Chunks(data, seqno, mss, clen)[i].Len() > 0
    {
      ChunksBound(data, seqno, mss, clen, i);
    }
  }

  lemma WrittenCounted(s: Pcb, data: seq<byte>, copy: bool, extra: nat)
    requires Counted(s) && |data| <= s.buf && (Joined(s, |data|) < |data| ==> MssLocal(s) > 0)
    ensures Counted(Written(s, data, copy, extra))
  {
    JoinedFits(s, |data|);
    var k, a := Joined(s, |data|), Extended(s, data);
    var b := if k < |data| then NewSegs(s, data, copy) else [];
    ExtendedCounted(s, data);
    if k < |data| {
      ChunksCounted(data[k..], s.lbb + k, MssLocal(s), SegBufs(copy));
    }
    BufsAppend(a, b, a + b);
    assert SegBufs(copy) * |b| == Bufs(b);
  }

  lemma ApplyCounted(s: Pcb, e: Event)
    requires Counted(s)
    ensures Counted(Apply(s, e))
  {
    match e
    case WriteEvent(data, copy, mem, extra) =>
      if WriteChecks(s, |data|) == ErrOk && WriteFits(s, data, copy, mem) {
        WrittenCounted(s, data, copy, extra);
      }
    case FinEvent(mem) => FinCounted(s, mem);
    case OutputEvent(ackNow) => OutputCounted(s, ackNow);
    case RtoEvent(ackNow) =>
      RexmitCounted(s);
      OutputCounted(RexmitRto(s), ackNow);
    case AckEvent(ackno, update, wnd) => AckCounted(s, ackno, update, wnd);
    case TuneEvent(cwnd, noDelay) =>
    case FastEvent(cwnd, ackNow) =>
      RexmitCounted(Tune(s, cwnd, true));
      OutputCounted(Rexmit(Tune(s, cwnd, true)), ackNow);
  }

  lemma {:induction false} ExecCounted(s: Pcb, events: seq<Event>)
    requires Counted(s)
    ensures Counted(Exec(s, events))
    decreases |events|
  {
    if events != [] {
      ApplyCounted(s, events[0]);
      ExecCounted(Apply(s, events[0]), events[1..]);
    }
  }

  /** Over every run of writes, closing, output, timeouts, fast retransmissions and acknowledgements, in any order
      and in any state of the queues: snd_queuelen counts the buffers, and snd_buf and what is unacknowledged are
      together the buffer. */
  lemma AccountsAlways(base: int, mss: nat, wnd: nat, cwnd: nat, events: seq<Event>)
    ensures var s := Exec(Established(base, mss, wnd, cwnd), events);
      && s.qlen == Bufs(s.unacked) + Bufs(s.unsent)
      && 0 <= s.buf && s.buf + (s.lbb - s.lastack) == TCP_SND_BUF
  {
    ExecCounted(Established(base, mss, wnd, cwnd), events);
  }

  // ---------------------------------------------------------------------------------------------
  // Runs that go wrong
  // ---------------------------------------------------------------------------------------------

  lemma ExecTwo(s: Pcb, e: Event, f: Event, s1: Pcb, s2: Pcb)
    requires Enabled(s, e) && s1 == Apply(s, e) && Enabled(s1, f) && s2 == Apply(s1, f)
    ensures Legal(s, [e, f]) && Exec(s, [e, f]) == s2
  {
    assert [e, f][1..] == [f] && [f][1..] == [];
    assert Exec(s1, [f]) == Exec(s2, []) == s2;
    assert Legal(s2, []) && Legal(s1, [f]);
  }

  lemma {:induction false} ExecAppend(s: Pcb, a: seq<Event>, b: seq<Event>, ab: seq<Event>)
    requires Legal(s, a) && Legal(Exec(s, a), b) && ab == a + b
    ensures Legal(s, ab) && Exec(s, ab) == Exec(Exec(s, a), b)
    decreases |a|
  {
    if a == [] {
      assert ab == b;
    } else {
      assert ab[0] == a[0] && ab[1..] == a[1..] + b;
      ExecAppend(Apply(s, a[0]), a[1..], b, ab[1..]);
    }
  }

  /** An open connection with nothing unsent, and room for one byte more. */
  ghost predicate Ready(s: Pcb) {
    && Inv(s) && s.unsent == [] && s.open && s.buf >= 1 && s.qlen < TCP_SND_QUEUELEN && MssLocal(s) >= 2
    && (s.noDelay || s.unacked == []) && s.lbb - s.lastack + 1 <= Min(s.wnd, s.cwnd) && !s.memErr && !s.finFlag
  }

  lemma OneChunk(data: seq<byte>, seqno: int, mss: nat, clen: nat)
    requires |data| == 1 && mss > 0
    ensures Chunks(data, seqno, mss, clen) == [Seg(seqno, data, false, clen)]
  {
    assert data[..1] == data && data[1..] == [];
  }

  lemma WriteByte(s: Pcb, data: seq<byte>) returns (r: Pcb)
    requires Ready(s) && |data| == 1
    ensures r == Write(s, data, true, 2, 0).0 && Enabled(s, WriteEvent(data, true, 2, 0)) && Inv(r)
    ensures r == s.(unsent := [Seg(s.lbb, data, false, 1)], lbb := s.lbb + 1, buf := s.buf - 1, qlen := s.qlen + 1,
                    stream := s.stream + data)
  {
    OneChunk(data, s.lbb, MssLocal(s), 1);
    assert data[0..] == data;
    r := Written(s, data, true, 0);
    assert WriteFits(s, data, true, 2);
    WriteKeeps(s, data, true, 2, 0);
  }

  lemma SendByte(s: Pcb, r: Pcb, data: seq<byte>) returns (t: Pcb)
    requires Ready(s) && |data| == 1 && Inv(r)
    requires r == s.(unsent := [Seg(s.lbb, data, false, 1)], lbb := s.lbb + 1, buf := s.buf - 1, qlen := s.qlen + 1,
                     stream := s.stream + data)
    ensures t == OutputNow(r, false) && Inv(t)
    ensures t == r.(unacked := s.unacked + [Seg(s.lbb, data, false, 1)], unsent := [], nxt := s.lbb + 1)
  {
    var seg := r.unsent[0];
    InsertAtEnd(s.unacked, From(s), Mid(s), seg);
    assert CanSend(r) && r.unsent[1..] == [];
    var u := SendOne(r);
    assert SendLoop(u) == u;
    assert s.oversize == 0;
    t := OutputNow(r, false);
    OutputKeeps(r);
  }

  /** One byte written and sent. */
  lemma ByteSent(s: Pcb, data: seq<byte>) returns (events: seq<Event>, t: Pcb)
    requires Ready(s) && |data| == 1
    ensures Legal(s, events) && t == Exec(s, events) && Inv(t)
    ensures t == s.(unacked := s.unacked + [Seg(s.lbb, data, false, 1)], unsent := [], lbb := s.lbb + 1,
                    buf := s.buf - 1, qlen := s.qlen + 1, stream := s.stream + data, nxt := s.lbb + 1)
  {
    var r := WriteByte(s, data);
    t := SendByte(s, r, data);
    events := [WriteEvent(data, true, 2, 0), OutputEvent(false)];
    ExecTwo(s, events[0], events[1], r, t);
  }

  lemma EstablishedInv(base: int, mss: nat, wnd: nat, cwnd: nat)
    ensures Inv(Established(base, mss, wnd, cwnd)) && Inv(Tune(Established(base, mss, wnd, cwnd), cwnd, true))
  {
  }

  /** Two bytes, in two segments, sent and not acknowledged. */
  lemma TwoUnacked(base: int, mss: nat, wnd: nat, cwnd: nat, a: seq<byte>, b: seq<byte>)
    returns (events: seq<Event>, t: Pcb)
    requires mss >= 2 && wnd >= 4 && cwnd >= 2 && |a| == |b| == 1
    ensures Legal(Established(base, mss, wnd, cwnd), events) && t == Exec(Established(base, mss, wnd, cwnd), events)
    ensures Inv(t) && t.unsent == [] && t.open && t.unacked == [Seg(base, a, false, 1), Seg(base + 1, b, false, 1)]
    ensures MssLocal(t) >= 2 && t.buf == TCP_SND_BUF - 2 && t.qlen == 2 && t.lastack == base && !t.memErr
  {
    var s0, tune := Established(base, mss, wnd, cwnd), [TuneEvent(cwnd, true)];
    EstablishedInv(base, mss, wnd, cwnd);
    TuneOnly(s0, cwnd);
    var two;
    two, t := TwoSent(Tune(s0, cwnd, true), a, b);
    events := tune + two;
    ExecAppend(s0, tune, two, events);
  }

  lemma TuneOnly(s: Pcb, cwnd: nat)
    ensures Legal(s, [TuneEvent(cwnd, true)]) && Exec(s, [TuneEvent(cwnd, true)]) == Tune(s, cwnd, true)
  {
    var s1 := Tune(s, cwnd, true);
    assert [TuneEvent(cwnd, true)][1..] == [] && Legal(s1, []) && Exec(s1, []) == s1;
  }

  lemma TwoSent(s: Pcb, a: seq<byte>, b: seq<byte>) returns (events: seq<Event>, t: Pcb)
    requires Inv(s) && s.unsent == [] && s.open && s.buf == TCP_SND_BUF && s.qlen == 0 && MssLocal(s) >= 2 && s.noDelay
    requires s.unacked == [] && s.lbb == s.lastack && Min(s.wnd, s.cwnd) >= 2 && !s.memErr && !s.finFlag
    requires |a| == |b| == 1
    ensures Legal(s, events) && t == Exec(s, events) && Inv(t)
    ensures t.unsent == [] && t.open && t.unacked == [Seg(s.lbb, a, false, 1), Seg(s.lbb + 1, b, false, 1)]
    ensures MssLocal(t) == MssLocal(s) && t.buf == TCP_SND_BUF - 2 && t.qlen == 2 && t.lastack == s.lastack && !t.memErr
  {
    var first, s1 := ByteSent(s, a);
    var second;
    second, t := ByteSent(s1, b);
    events := first + second;
    ExecAppend(s, first, second, events);
  }

  /** A fast retransmission that the congestion window does not let out: the first segment waits. */
  lemma Blocked(u: Pcb) returns (s: Pcb)
    requires Inv(u) && u.unacked != [] && u.unsent == [] && u.unacked[0].data != []
    requires u.unacked[0].seqno == u.lastack && !u.memErr
    ensures Enabled(u, FastEvent(0, false)) && s == Apply(u, FastEvent(0, false))
    ensures Inv(Tune(u, 0, true)) && s == Rexmit(Tune(u, 0, true))
  {
    var v := Tune(u, 0, true);
    TuneKeeps(u, 0, true);
    var r := Rexmit(v);
    assert r.unsent == [u.unacked[0]] && !CanSend(r);
    s := OutputNow(r, false);
  }

  /** From an established connection: two bytes sent apart, a fast retransmission of the first that the window
      blocks; then writing a byte, closing, and a timeout each put the queues out of order. */
  lemma OrderLost(base: int, mss: nat, wnd: nat, cwnd: nat, a: seq<byte>, b: seq<byte>, c: seq<byte>)
    returns (events: seq<Event>, s: Pcb)
    requires mss >= 2 && wnd >= 4 && cwnd >= 2 && |a| == |b| == |c| == 1
    ensures Legal(Established(base, mss, wnd, cwnd), events) && s == Exec(Established(base, mss, wnd, cwnd), events)
    ensures InLine(s)
    ensures !InLine(Apply(s, WriteEvent(c, true, 1, 0))) && !InLine(Apply(s, FinEvent(2))) && !InLine(RexmitRto(s))
  {
    var before, u := TwoUnacked(base, mss, wnd, cwnd, a, b);
    s := Blocked(u);
    var fast := [FastEvent(0, false)];
    assert fast[1..] == [] && Legal(s, []) && Exec(s, []) == s;
    assert Legal(u, fast) && Exec(u, fast) == s;
    events := before + fast;
    ExecAppend(Established(base, mss, wnd, cwnd), before, fast, events);
    var v := Tune(u, 0, true);
    RexmitInLine(v);
    WriteGrows(v, s, c);
    WriteAfterRexmitExactly(v, c, true, 1, 0);
    CloseAfterRexmitExactly(v, 2);
    TimeoutAfterRexmitExactly(v);
  }

  lemma WriteGrows(v: Pcb, s: Pcb, c: seq<byte>)
    requires Inv(v) && v.unsent == [] && v.open && |v.unacked| == 2 && |v.unacked[0].data| == 1 && s == Rexmit(v)
    requires MssLocal(v) >= 2 && v.buf >= 1 && v.qlen < TCP_SND_QUEUELEN && |c| == 1
    ensures Write(s, c, true, 1, 0).1 == ErrOk
  {
    assert s.unsent == [v.unacked[0]];
    assert s.oversize == 0 && Tail(s, 1) == 0 && Chain(s, 1) == 1;
    assert WriteFits(s, c, true, 1);
  }

  /** From an established connection: a byte, a FIN added to its segment, both sent and acknowledged, and there is
      one byte more of send buffer than there is. */
  lemma BufferOverrun(base: int, mss: nat, wnd: nat, cwnd: nat, a: seq<byte>) returns (events: seq<Event>)
    requires mss >= 2 && wnd >= 4 && cwnd >= 1 && |a| == 1
    ensures Legal(Established(base, mss, wnd, cwnd), events)
    ensures Exec(Established(base, mss, wnd, cwnd), events).buf == TCP_SND_BUF + 1
  {
    var s0 := Established(base, mss, wnd, cwnd);
    EstablishedInv(base, mss, wnd, cwnd);
    var s1 := WriteByte(s0, a);
    var s2 := CloseByte(s1, a);
    var s3 := SendLast(s2, a);
    var s4 := Ack(s3, To(s3), false, 0);
    PiggybackedFinOverruns(s3, false, 0);
    var first, second := [WriteEvent(a, true, 2, 0), FinEvent(2)], [OutputEvent(false), AckEvent(To(s3), false, 0)];
    ExecTwo(s0, first[0], first[1], s1, s2);
    ExecTwo(s2, second[0], second[1], s3, s4);
    events := first + second;
    ExecAppend(s0, first, second, events);
  }

  lemma CloseByte(s: Pcb, a: seq<byte>) returns (t: Pcb)
    requires Inv(s) && s.open && |a| == 1 && s.unsent == [Seg(s.base, a, false, 1)] && s.unacked == []
    ensures t == SendFin(s, 2).0 && Enabled(s, FinEvent(2)) && Inv(t)
    ensures t == s.(unsent := [Seg(s.base, a, true, 1)], finFlag := true, open := false)
  {
    t := SendFin(s, 2).0;
    SendFinKeeps(s, 2);
  }

  lemma SendLast(s: Pcb, a: seq<byte>) returns (t: Pcb)
    requires Inv(s) && !s.open && s.finFlag && |a| == 1 && s.unsent == [Seg(s.base, a, true, 1)] && s.unacked == []
    requires s.lastack == s.base == s.nxt && |s.stream| == 1 && s.lbb == s.base + 1 && 1 <= Min(s.wnd, s.cwnd)
    ensures t == OutputNow(s, false) && Inv(t) && Piggybacked(t) && t.nxt == To(t) && t.lastack < To(t)
  {
    assert CanSend(s) && s.unsent[1..] == [];
    var u := SendOne(s);
    assert SendLoop(u) == u;
    t := OutputNow(s, false);
    OutputKeeps(s);
  }
}
