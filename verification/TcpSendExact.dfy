/** What each step of the sending side does, exactly: which segments output sends, what a timeout puts back and
    sends again, what an acknowledgement takes off the queues, when a connection can be closed, and that a handshake
    can always be completed. */
module TcpSendExact {
  import opened Common
  import opened Words
  import opened TcpSend

  // ---------------------------------------------------------------------------------------------
  // Output
  // ---------------------------------------------------------------------------------------------

  /** The data of the segment ends within both windows, counted from the last acknowledgement. */
  predicate InWindow(s: Pcb, seg: Seg) {
    seg.seqno + |seg.data| <= s.lastack + Min(s.wnd, s.cwnd)
  }

  /** The Nagle algorithm (RFC 896): the last segment, not a full one, waits while something before it is
      unacknowledged; but not with TCP_NODELAY, when closing, when memory was short or when there is no more room
      for data. */
  predicate HeldBack(s: Pcb, i: nat) {
    && i + 1 == |s.unsent| && |s.unsent[i].data| < s.mss
    && (i > 0 || s.unacked != [])
    && !s.noDelay && !s.finFlag && !s.memErr && s.buf != 0 && s.qlen < TCP_SND_QUEUELEN
  }

  lemma InWindowBefore(q: seq<Seg>, from: int, to: int, i: nat)
    requires Tiles(q, from, to) && i < |q|
    ensures q[0].seqno + |q[0].data| <= q[i].seqno + |q[i].data|
  {
    if i > 0 {
      TilesAt(q[1..], q[0].End(), to, i - 1);
    }
  }

  /** Output sends segment i of the unsent queue exactly if it lies in the window and is not held back. */
  lemma {:induction false} OutputSends(s: Pcb, i: nat)
    requires LineInv(s) && CountInv(s) && i < |s.unsent|
    ensures i < |s.unsent| - |SendLoop(s).unsent| <==> InWindow(s, s.unsent[i]) && !HeldBack(s, i)
    decreases |s.unsent|
  {
    OutputMoves(s);
    if !CanSend(s) {
      InWindowBefore(s.unsent, Mid(s), To(s), i);
    } else {
      SendOneKeeps(s);
      var t := SendOne(s);
      if i > 0 {
        OutputSends(t, i - 1);
        SentOneHeld(s, t, i);
      } else {
        OutputMoves(t);
      }
    }
  }

  /** What holds a later segment back is the same before and after the first one is sent. */
  lemma SentOneHeld(s: Pcb, t: Pcb, i: nat)
    requires s.unsent != [] && t == SendOne(s) && 0 < i < |s.unsent| && s.unsent[0].Len() > 0
    ensures t.unsent[i - 1] == s.unsent[i] && (HeldBack(t, i - 1) <==> HeldBack(s, i))
    ensures InWindow(t, s.unsent[i]) <==> InWindow(s, s.unsent[i])
  {
    assert Insert(s.unacked, s.unsent[0]) != [];
  }

  /** The highest sequence number sent. */
  function Further(nxt: int, q: seq<Seg>): int {
    if q != [] && nxt < q[|q| - 1].End() then q[|q| - 1].End() else nxt
  }

  lemma {:induction false} SendLoopFields(s: Pcb)
    ensures var r := SendLoop(s); r == s.(unacked := r.unacked, unsent := r.unsent, nxt := r.nxt)
    decreases |s.unsent|
  {
    if CanSend(s) {
      SendLoopFields(SendOne(s));
    }
  }

  lemma {:induction false} SendLoopNxt(s: Pcb, n: nat)
    requires LineInv(s) && CountInv(s) && n == |s.unsent| - |SendLoop(s).unsent|
    ensures n <= |s.unsent| && SendLoop(s).nxt == Further(s.nxt, s.unsent[..n])
    decreases |s.unsent|
  {
    if CanSend(s) {
      SendOneKeeps(s);
      var t := SendOne(s);
      OutputMoves(t);
      SendLoopNxt(t, n - 1);
      SentFurther(s, t, n);
    }
  }

  lemma SentFurther(s: Pcb, t: Pcb, n: nat)
    requires s.unsent != [] && t == SendOne(s) && 0 < n <= |s.unsent| && Tiles(s.unsent, Mid(s), To(s))
    ensures Further(t.nxt, t.unsent[..n - 1]) == Further(s.nxt, s.unsent[..n])
  {
    var a, b := s.unsent[..n], t.unsent[..n - 1];
    if n > 1 {
      assert a[n - 1] == b[n - 2] == s.unsent[n - 1];
      TilesAt(s.unsent[1..], s.unsent[0].End(), To(s), n - 2);
    }
  }

  /** tcp_output as a whole: a front part of the unsent queue goes to the end of the unacknowledged one, snd_nxt
      moves to the end of it if that is further, the note of a memory error is cleared, the unused space is that of
      the last unsent segment, and nothing else changes. Which segments go is said by `OutputSends`. */
  lemma OutputIs(s: Pcb, ackNow: bool) returns (n: nat)
    requires Inv(s)
    ensures n <= |s.unsent|
    ensures forall i | 0 <= i < |s.unsent| :: i < n <==> InWindow(s, s.unsent[i]) && !HeldBack(s, i)
    ensures OutputNow(s, ackNow) ==
              if ackNow && (s.unsent == [] || !InWindow(s, s.unsent[0])) then s
              else s.(unacked := s.unacked + s.unsent[..n], unsent := s.unsent[n..],
                      nxt := Further(s.nxt, s.unsent[..n]), memErr := false,
                      oversize := if n == |s.unsent| then 0 else s.oversize)
  {
    OutputMoves(s);
    n := |s.unsent| - |SendLoop(s).unsent|;
    SendLoopFields(s);
    SendLoopNxt(s, n);
    forall i | 0 <= i < |s.unsent|
      ensures i < n <==> InWindow(s, s.unsent[i]) && !HeldBack(s, i)
    {
      OutputSends(s, i);
    }
  }

  // ---------------------------------------------------------------------------------------------
  // The retransmission timeout
  // ---------------------------------------------------------------------------------------------

  /** A timeout puts every unacknowledged segment back: nothing is unacknowledged, the unsent queue covers
      everything from the first unacknowledged segment on without gap or overlap, and has the unacknowledged bytes
      followed by the unsent ones. */
  lemma TimeoutRequeues(s: Pcb)
    requires Inv(s)
    ensures var r := RexmitRto(s);
      && r.unacked == [] && r.unsent == s.unacked + s.unsent && Tiles(r.unsent, From(s), To(s))
      && Payload(r.unsent) == Payload(s.unacked) + Payload(s.unsent)
      && r == s.(unacked := r.unacked, unsent := r.unsent)
  {
    var r := RexmitRto(s);
    RexmitRtoKeeps(s);
    PayloadAppend(s.unacked, s.unsent, r.unsent);
    assert From(r) == Mid(r) && To(r) == To(s);
    if s.unacked == [] {
      assert r.unsent == s.unsent;
    }
  }

  /** The segments of both queues, in order. */
  function Queues(s: Pcb): seq<Seg> {
    s.unacked + s.unsent
  }

  /** After a timeout segment i of the two queues has been sent again exactly if it lies in the window and is not
      held back; the first one never is, so it is sent again whenever it fits. */
  lemma TimeoutResends(s: Pcb, ackNow: bool, i: nat)
    requires Inv(s) && s.unacked != [] && i < |Queues(s)|
    ensures var r := Apply(s, RtoEvent(ackNow));
      && Queues(r) == Queues(s)
      && (i < |r.unacked| <==> InWindow(s, Queues(s)[i]) && !HeldBack(RexmitRto(s), i))
      && !HeldBack(RexmitRto(s), 0)
  {
    RexmitRtoKeeps(s);
    TimeoutRequeues(s);
    FirstOutput(RexmitRto(s), ackNow, i);
  }

  /** Output with nothing unacknowledged. */
  lemma FirstOutput(t: Pcb, ackNow: bool, i: nat)
    requires Inv(t) && t.unacked == [] && i < |t.unsent|
    ensures var r := OutputNow(t, ackNow);
      && Queues(r) == t.unsent && (i < |r.unacked| <==> InWindow(t, t.unsent[i]) && !HeldBack(t, i))
      && !HeldBack(t, 0)
  {
    InWindowBefore(t.unsent, Mid(t), To(t), i);
    var n := OutputIs(t, ackNow);
    assert i < n <==> InWindow(t, t.unsent[i]) && !HeldBack(t, i);
    assert 0 < n <==> InWindow(t, t.unsent[0]) && !HeldBack(t, 0);
    QueuesSplit(t, OutputNow(t, ackNow), n);
  }

  lemma QueuesSplit(t: Pcb, r: Pcb, n: nat)
    requires t.unacked == [] && n <= |t.unsent|
    requires || (r.unacked == [] && r.unsent == t.unsent)
             || (r.unacked == t.unacked + t.unsent[..n] && r.unsent == t.unsent[n..])
    ensures Queues(r) == t.unsent && (|r.unacked| == 0 || |r.unacked| == n)
  {
    assert [] + t.unsent == t.unsent && t.unsent[..n] + t.unsent[n..] == t.unsent;
  }

  // ---------------------------------------------------------------------------------------------
  // Acknowledgements
  // ---------------------------------------------------------------------------------------------

  /** The segments that end beyond `ackno`. */
  function Beyond(q: seq<Seg>, ackno: int): seq<Seg> {
    if q == [] then [] else (if q[0].End() > ackno then [q[0]] else []) + Beyond(q[1..], ackno)
  }

  lemma {:induction false} CoveredIsBeyond(q: seq<Seg>, from: int, to: int, ackno: int)
    requires Tiles(q, from, to)
    ensures q[Covered(q, ackno)..] == Beyond(q, ackno)
    decreases |q|
  {
    if q != [] {
      var rest := q[1..];
      if q[0].End() <= ackno {
        CoveredIsBeyond(rest, q[0].End(), to, ackno);
        assert q[Covered(q, ackno)..] == rest[Covered(rest, ackno)..];
      } else {
        AllBeyond(rest, q[0].End(), to, ackno);
        assert q[0..] == [q[0]] + rest;
      }
    }
  }

  lemma {:induction false} AllBeyond(q: seq<Seg>, from: int, to: int, ackno: int)
    requires Tiles(q, from, to) && ackno < from
    ensures Beyond(q, ackno) == q
    decreases |q|
  {
    if q != [] {
      AllBeyond(q[1..], q[0].End(), to, ackno);
      assert q == [q[0]] + q[1..];
    }
  }

  lemma NoneAcked(s: Pcb, ackno: int)
    requires Inv(s) && ackno <= s.lastack
    ensures Beyond(s.unacked, ackno) == s.unacked && Beyond(s.unsent, ackno) == s.unsent
  {
    TakesInOrder(s, ackno, 0, Covered(s.unsent, ackno));
    CoveredIsBeyond(s.unacked, From(s), Mid(s), ackno);
    CoveredIsBeyond(s.unsent, Mid(s), To(s), ackno);
    if s.unacked != [] {
      assert Covered(s.unacked, ackno) == 0;
    }
    assert s.unacked[0..] == s.unacked && s.unsent[0..] == s.unsent;
  }

  /** An acknowledgement of something sent and not yet acknowledged becomes the last one and leaves exactly the
      segments that end beyond it, in both queues; the buffer gets back what lies between the two, and the
      application is told of the bytes of it, a FIN not counted. Any other one changes no more than the window. */
  lemma AckExactly(s: Pcb, ackno: int, update: bool, wnd: nat)
    requires Inv(s)
    ensures var r := Ack(s, ackno, update, wnd); var isNew := s.lastack < ackno <= s.nxt;
      && r.lastack == (if isNew then ackno else s.lastack)
      && r.unacked == (if isNew then Beyond(s.unacked, ackno) else s.unacked)
      && r.unsent == (if isNew then Beyond(s.unsent, ackno) else s.unsent)
      && r.buf - s.buf == r.lastack - s.lastack && r.qlen == Bufs(r.unacked) + Bufs(r.unsent)
      && r.reported - s.reported == Min(r.lastack - s.base, |s.stream|) - Min(s.lastack - s.base, |s.stream|)
      && r.wnd == (if update then wnd else s.wnd) && r.wndMax == (if s.wndMax < r.wnd then r.wnd else s.wndMax)
      && r.nxt == s.nxt && r.lbb == s.lbb && r.stream == s.stream && r.open == s.open && r.base == s.base
      && r.cwnd == s.cwnd && r.mss == s.mss && r.finFlag == s.finFlag && r.noDelay == s.noDelay && r.memErr == s.memErr
  {
    var r := Ack(s, ackno, update, wnd);
    AckKeeps(s, ackno, update, wnd);
    AckFields(s, ackno, update, wnd);
    if ackno <= s.nxt {
      AckQueues(s, ackno, update, wnd);
    }
    AckSums(s, r);
  }

  lemma AckFields(s: Pcb, ackno: int, update: bool, wnd: nat)
    ensures var r := Ack(s, ackno, update, wnd); var isNew := s.lastack < ackno <= s.nxt;
      && r.lastack == (if isNew then ackno else s.lastack) && (ackno > s.nxt ==> SameLine(s, r))
      && r.wnd == (if update then wnd else s.wnd) && r.wndMax == (if s.wndMax < r.wnd then r.wnd else s.wndMax)
      && r.nxt == s.nxt && r.lbb == s.lbb && r.stream == s.stream && r.open == s.open && r.base == s.base
      && r.cwnd == s.cwnd && r.mss == s.mss && r.finFlag == s.finFlag && r.noDelay == s.noDelay && r.memErr == s.memErr
  {
  }

  lemma AckSums(s: Pcb, r: Pcb)
    requires CountInv(s) && CountInv(r) && r.lbb == s.lbb && r.stream == s.stream && r.base == s.base
    ensures r.buf - s.buf == r.lastack - s.lastack && r.qlen == Bufs(r.unacked) + Bufs(r.unsent)
    ensures r.reported - s.reported == Min(r.lastack - s.base, |s.stream|) - Min(s.lastack - s.base, |s.stream|)
  {
  }

  /** The queues after an acknowledgement of something sent. */
  lemma AckLeaves(s: Pcb, ackno: int, update: bool, wnd: nat)
    requires ackno <= s.nxt
    ensures var r := Ack(s, ackno, update, wnd);
      && r.unacked == (if ackno > s.lastack then s.unacked[Covered(s.unacked, ackno)..] else s.unacked)
      && r.unsent == s.unsent[Covered(s.unsent, ackno)..]
  {
    assert s.unacked[0..] == s.unacked;
  }

  lemma AckQueues(s: Pcb, ackno: int, update: bool, wnd: nat)
    requires Inv(s) && ackno <= s.nxt
    ensures var r := Ack(s, ackno, update, wnd);
      && r.unacked == (if s.lastack < ackno then Beyond(s.unacked, ackno) else s.unacked)
      && r.unsent == (if s.lastack < ackno then Beyond(s.unsent, ackno) else s.unsent)
  {
    AckLeaves(s, ackno, update, wnd);
    CoveredIsBeyond(s.unacked, From(s), Mid(s), ackno);
    CoveredIsBeyond(s.unsent, Mid(s), To(s), ackno);
    if ackno <= s.lastack {
      NoneAcked(s, ackno);
    }
  }

  // ---------------------------------------------------------------------------------------------
  // Closing
  // ---------------------------------------------------------------------------------------------

  /** Closing succeeds exactly if there is an unsent segment to put the FIN on, or queue, buffer and memory have
      room for one of its own. Then the connection is closed for writing, the FIN is on the last unsent segment and on
      no other, behind all bytes, which are the same as before; otherwise only a memory error may be noted. */
  lemma CloseExactly(s: Pcb, mem: nat)
    requires Inv(s) && s.open
    ensures var (r, err) := SendFin(s, mem);
      && (err == ErrOk <==> s.unsent != [] || (s.qlen < TCP_SND_QUEUELEN && s.buf > 0 && mem >= 2))
      && (err == ErrOk ==>
            && !r.open && r.finFlag && r.unsent != [] && r.unsent[|r.unsent| - 1].fin
            && r.unsent[|r.unsent| - 1].End() == To(s) + 1
            && Payload(r.unsent) == Payload(s.unsent) && r.unacked == s.unacked && r.stream == s.stream)
      && (err != ErrOk ==> r == s || r == s.(memErr := true))
  {
    var (r, err) := SendFin(s, mem);
    if s.unsent != [] {
      var k := |s.unsent| - 1;
      TilesAt(s.unsent, Mid(s), To(s), k);
      var front, last := s.unsent[..k], s.unsent[k];
      assert s.unsent == front + [last] && r.unsent == front + [last.(fin := true)];
      PayloadLast(front, last, s.unsent);
      PayloadLast(front, last.(fin := true), r.unsent);
    } else if err == ErrOk {
      assert r.unsent[1..] == [];
    }
  }

  // ---------------------------------------------------------------------------------------------
  // The handshake
  // ---------------------------------------------------------------------------------------------

  /** Whatever has happened so far, a handshake can be completed: a SYN made if there is none, sent, and
      acknowledged. */
  lemma HandshakeCompletes(active: bool, iss: int, events: seq<OpenEvent>)
    ensures var h := OpenAll(Allocated(active, iss), events); var at := if active then iss else iss + 1;
      OpenAll(h, [Enqueue(2), SendSyn, Acknowledge(at)]).syn.Acked?
  {
    OpenAllKeeps(Allocated(active, iss), events, iss);
    var h, at := OpenAll(Allocated(active, iss), events), if active then iss else iss + 1;
    var a, b, c := Enqueue(2), SendSyn, Acknowledge(at);
    assert [a, b, c][1..] == [b, c] && [b, c][1..] == [c] && [c][1..] == [];
    var h1 := Open(h, a);
    var h2 := Open(h1, b);
    assert OpenAll(h2, [c]) == Open(h2, c) && OpenAll(h1, [b, c]) == OpenAll(h2, [c]);
  }

  /** The SYN of a connection is acknowledged exactly by the number after it, once it has been sent. */
  lemma SynAckedExactly(active: bool, iss: int, events: seq<OpenEvent>, ackno: int)
    ensures var h := OpenAll(Allocated(active, iss), events); var at := if active then iss else iss + 1;
      Open(h, Acknowledge(ackno)).syn.Acked? <==>
        h.syn.Acked? || (ackno == at && (h.syn.Unacked? || (!active && h.syn.Unsent? && h.nxt == at)))
  {
    OpenAllKeeps(Allocated(active, iss), events, iss);
  }
}
