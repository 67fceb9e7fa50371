/** How much the sends of libix/ixev.c accept, and when the window opens again.

    `SendExactly`, `SendZcExactly`, `HandedExactly` and `CallbacksKept` are the results, over any run: what a
    call accepts is a function of what was accepted and acknowledged before it and of the room there is, and
    every callback of the application is registered once, in its turn. */
module IxevSendExact {
  import opened Common
  import opened Words
  import opened IxevSend

  // ---------------------------------------------------------------------------------------------
  // What a run says about itself
  // ---------------------------------------------------------------------------------------------

  /** What the acknowledgements of a run add up to. */
  function Acked(events: seq<Event>): nat {
    if events == [] then 0 else (if events[0].TcpSentEvent? then events[0].len else 0) + Acked(events[1..])
  }

  /** What the returns of the sendv system call add up to. */
  function TakenBy(events: seq<Event>): nat {
    if events == [] then 0
    else (if events[0].SendvRetEvent? && events[0].ret >= 0 then events[0].ret else 0) + TakenBy(events[1..])
  }

  /** Some sendv failed. */
  predicate Failed(events: seq<Event>) {
    exists i | 0 <= i < |events| :: Fails(events[i])
  }

  predicate Fails(e: Event) {
    e.SendvRetEvent? && e.ret < 0
  }

  /** The bytes accepted and not yet acknowledged. */
  ghost function Outstanding(events: seq<Event>): int
    requires LegalRun(events)
  {
    |AcceptedBy(events)| - Acked(events)
  }

  // ---------------------------------------------------------------------------------------------
  // One call
  // ---------------------------------------------------------------------------------------------

  /** What still fits in the buffer at hand. */
  function AtHand(s: Ctx): int {
    if s.send != [] && s.cur.Some? && s.cur.value < |s.bufs| then BUF_SIZE - |s.bufs[s.cur.value].data| else 0
  }

  /** How many buffers can be added. */
  function More(s: Ctx, allocs: nat): int {
    Min(IXEV_SEND_DEPTH - |s.send|, allocs)
  }

  /** How many buffers it takes to hold n bytes. */
  function Buffers(n: nat): nat {
    (n + BUF_SIZE - 1) / BUF_SIZE
  }

  /** From s to r, n bytes were accepted into new buffers. */
  ghost predicate Filled(s: Ctx, r: Ctx, n: nat) {
    && r.sendTotal == s.sendTotal + n && |r.send| == |s.send| + Buffers(n)
    && |r.bufs| == |s.bufs| + Buffers(n) && |r.refs| == |s.refs| + Buffers(n)
  }

  lemma {:induction false} ColdLoopExactly(s: Ctx, data: seq<byte>, allocs: nat, n: nat)
    requires |s.send| <= IXEV_SEND_DEPTH && n == Min(|data|, More(s, allocs) * BUF_SIZE)
    ensures Filled(s, ColdLoop(s, data, allocs), n)
    decreases |data|
  {
    if data != [] && |s.send| < IXEV_SEND_DEPTH && allocs > 0 {
      var k := Min(|data|, BUF_SIZE);
      var r, rest := Cold(s, data), data[k..];
      assert Buffers(n) == 1 + Buffers(n - k);
      ColdLoopExactly(r, rest, allocs - 1, n - k);
    }
  }

  /** From s to r, n bytes were accepted, into the buffer at hand first and no more new ones than needed. */
  ghost predicate Took(s: Ctx, r: Ctx, n: int) {
    && n >= 0 && AtHand(s) >= 0 && r.sendTotal - s.sendTotal == n
    && |r.send| - |s.send| == (if n <= AtHand(s) then 0 else Buffers(n - AtHand(s)))
  }

  lemma HotColdExactly(s: Ctx, now: seq<byte>, rest: seq<byte>, allocs: nat)
    requires HotOk(s) && |s.send| <= IXEV_SEND_DEPTH && |rest| == |now| - Fits(s.bufs[s.cur.value], |now|)
    ensures Took(s, ColdLoop(Hot(s, now), rest, allocs), Min(|now|, AtHand(s) + More(s, allocs) * BUF_SIZE))
  {
    ColdLoopExactly(Hot(s, now), rest, allocs, Min(|rest|, More(s, allocs) * BUF_SIZE));
  }

  lemma SendTakes(s: Ctx, data: seq<byte>, allocs: nat)
    requires s.send != [] && s.cur.Some? ==> HotOk(s)
    requires !s.dead && WindowLen(s, |data|) > 0 && |s.send| <= IXEV_SEND_DEPTH
    ensures Took(s, Send(s, data, allocs), Min(WindowLen(s, |data|), AtHand(s) + More(s, allocs) * BUF_SIZE))
  {
    var n := WindowLen(s, |data|);
    var now := data[..n];
    if s.send != [] && s.cur.Some? {
      HotColdExactly(s, now, data[Fits(s.bufs[s.cur.value], n)..n], allocs);
    } else {
      ColdLoopExactly(s, now, allocs, Min(n, More(s, allocs) * BUF_SIZE));
    }
  }

  /** What a copying send may take: what the window leaves, and what the buffer at hand, the free entries and
      the allocations hold. */
  function Room(s: Ctx, free: int, allocs: nat): int {
    if s.dead then 0 else Min(free, AtHand(s) + More(s, allocs) * BUF_SIZE)
  }

  /** ixev_send accepts what the data, the window and the room allow, whichever is least, and nothing on a
      dead connection. */
  lemma SendAccepts(s: Ctx, data: seq<byte>, allocs: nat)
    requires Inv(s)
    ensures s.send != [] && s.cur.Some? ==> HotOk(s)
    ensures Took(s, Send(s, data, allocs),
                 Min(|data|, Room(s, IXEV_SEND_WIN_SIZE - (s.sendTotal - s.sentTotal), allocs)))
  {
    if s.send != [] && s.cur.Some? {
      InvHotOk(s);
    }
    if !s.dead && WindowLen(s, |data|) > 0 {
      SendTakes(s, data, allocs);
    }
  }

  /** ixev_send_zc accepts what the data and the window allow, if there is an entry. */
  lemma SendZcAccepts(s: Ctx, data: seq<byte>)
    requires Inv(s)
    ensures var r, free := SendZc(s, data), IXEV_SEND_WIN_SIZE - (s.sendTotal - s.sentTotal);
      && free >= 0
      && r.sendTotal - s.sendTotal ==
           (if s.dead || |s.send| == IXEV_SEND_DEPTH then 0 else Min(|data|, free))
      && |r.send| - |s.send| == (if r.sendTotal == s.sendTotal then 0 else 1)
      && (r.sendTotal == s.sendTotal ==> r == s)
  {
  }

  // ---------------------------------------------------------------------------------------------
  // Runs
  // ---------------------------------------------------------------------------------------------

  lemma ApplyAcks(s: Ctx, e: Event)
    requires Inv(s) && Enabled(s, e)
    ensures var r := Apply(s, e);
      && r.sentTotal == s.sentTotal + (if e.TcpSentEvent? then e.len else 0)
      && |r.handed| == |s.handed| + (if e.SendvRetEvent? && e.ret >= 0 then e.ret else 0)
      && (r.dead <==> s.dead || Fails(e))
  {
    if e.SendEvent? {
      SendKeeps(s, e.data, e.allocs);
      SendNotDead(s, e.data, e.allocs);
    }
  }

  lemma {:induction false} ColdLoopDead(s: Ctx, data: seq<byte>, allocs: nat)
    ensures ColdLoop(s, data, allocs).dead == s.dead
    decreases |data|
  {
    if data != [] && |s.send| < IXEV_SEND_DEPTH && allocs > 0 {
      ColdLoopDead(Cold(s, data), data[Min(|data|, BUF_SIZE)..], allocs - 1);
    }
  }

  lemma SendNotDead(s: Ctx, data: seq<byte>, allocs: nat)
    requires s.send != [] && s.cur.Some? ==> HotOk(s)
    ensures Send(s, data, allocs).dead == s.dead
  {
    var n := WindowLen(s, |data|);
    if !s.dead && n > 0 {
      if s.send != [] && s.cur.Some? {
        ColdLoopDead(Hot(s, data[..n]), data[Fits(s.bufs[s.cur.value], n)..n], allocs);
      } else {
        ColdLoopDead(s, data[..n], allocs);
      }
    }
  }

  lemma {:induction false} ExecAcks(s: Ctx, events: seq<Event>)
    requires Inv(s) && Legal(s, events)
    ensures var r := Exec(s, events);
      && r.sentTotal == s.sentTotal + Acked(events) && |r.handed| == |s.handed| + TakenBy(events)
      && (r.dead <==> s.dead || Failed(events))
    decreases |events|
  {
    if events != [] {
      ApplyAcks(s, events[0]);
      ApplyKeeps(s, events[0]);
      var rest := events[1..];
      ExecAcks(Apply(s, events[0]), rest);
      assert Failed(events) <==> Fails(events[0]) || Failed(rest) by {
        assert forall i | 0 <= i < |rest| :: rest[i] == events[i + 1];
        assert forall i | 1 <= i < |events| :: events[i] == rest[i - 1];
      }
    }
  }

  /** Over any run: what is acknowledged is the sum of the acknowledgements, the kernel has as many bytes as
      its returns add up to, the first of those accepted, and what is left to offer is the rest; and the
      connection is dead exactly when a sendv failed. */
  lemma HandedExactly(events: seq<Event>)
    requires LegalRun(events)
    ensures var s := Run(events);
      && s.sentTotal == Acked(events) <= |s.handed| == TakenBy(events) <= |AcceptedBy(events)|
      && s.handed == AcceptedBy(events)[..TakenBy(events)]
      && Content(s.send, s.bufs) == AcceptedBy(events)[TakenBy(events)..]
      && (s.dead <==> Failed(events))
      && s.sendTotal - s.sentTotal == Outstanding(events)
  {
    InitInv();
    ExecAcks(Init(), events);
    StreamInOrder(events);
  }

  /** After any run, the copying send accepts exactly that much of the data, counting as free what the window
      leaves after what is outstanding. */
  lemma SendExactly(events: seq<Event>, data: seq<byte>, allocs: nat, more: seq<Event>)
    requires LegalRun(events) && more == events + [SendEvent(data, allocs)]
    ensures LegalRun(more) && (Run(events).dead <==> Failed(events))
    ensures var n := Min(|data|, Room(Run(events), IXEV_SEND_WIN_SIZE - Outstanding(events), allocs));
      0 <= n && AcceptedBy(more) == AcceptedBy(events) + data[..n]
  {
    HandedExactly(events);
    SendAccepts(Run(events), data, allocs);
    RunMore(events, SendEvent(data, allocs), more);
  }

  /** The zero-copy send: all of it that the window leaves, if one of the entries is free. */
  lemma SendZcExactly(events: seq<Event>, data: seq<byte>, more: seq<Event>)
    requires LegalRun(events) && more == events + [SendZcEvent(data)]
    ensures LegalRun(more)
    ensures var n := if Failed(events) || |Run(events).send| == IXEV_SEND_DEPTH then 0
                     else Min(|data|, IXEV_SEND_WIN_SIZE - Outstanding(events));
      0 <= n <= |data| && AcceptedBy(more) == AcceptedBy(events) + data[..n]
  {
    HandedExactly(events);
    RunMore(events, SendZcEvent(data), more);
    SendZcAccepts(Run(events), data);
  }

  /** One step more. */
  lemma {:induction false} ExecMore(s: Ctx, events: seq<Event>, e: Event, more: seq<Event>)
    requires Inv(s) && Legal(s, events) && Enabled(Exec(s, events), e) && more == events + [e]
    ensures Legal(s, more) && Exec(s, more) == Apply(Exec(s, events), e)
    decreases |events|
  {
    if events == [] {
      assert more[1..] == [];
      ApplyKeeps(s, e);
      assert Legal(Apply(s, e), []);
    } else {
      ApplyKeeps(s, events[0]);
      assert more[1..] == events[1..] + [e];
      ExecMore(Apply(s, events[0]), events[1..], e, more[1..]);
    }
  }

  lemma RunMore(events: seq<Event>, e: Event, more: seq<Event>)
    requires LegalRun(events) && Enabled(Run(events), e) && more == events + [e]
    ensures LegalRun(more) && Run(more) == Apply(Run(events), e)
    ensures AcceptedBy(more) == AcceptedBy(events) + AcceptedPart(e, Run(more).sendTotal - Run(events).sendTotal)
  {
    InitInv();
    ExecMore(Init(), events, e, more);
    StreamInOrder(events);
    StreamInOrder(more);
    ApplyAccepts(Run(events), e);
  }

  // ---------------------------------------------------------------------------------------------
  // The buffer at hand
  // ---------------------------------------------------------------------------------------------

  /** Which buffer is at hand after a copying send of n bytes from s to r: none if it ran out of buffers with
      an entry left, else the last one it added, else the one there was. */
  ghost predicate CurAfterSend(s: Ctx, r: Ctx, n: int) {
    if r.sendTotal - s.sendTotal < n && |r.send| < IXEV_SEND_DEPTH then r.cur == None
    else if |r.bufs| > |s.bufs| then r.cur == Some(|r.bufs| - 1)
    else r.cur == s.cur
  }

  lemma {:induction false} ColdLoopCur(s: Ctx, data: seq<byte>, allocs: nat)
    ensures var r := ColdLoop(s, data, allocs);
      CurAfterSend(s, r, |data|) && |r.bufs| >= |s.bufs| && r.sendTotal <= s.sendTotal + |data|
    decreases |data|
  {
    if data != [] && |s.send| < IXEV_SEND_DEPTH && allocs > 0 {
      ColdLoopCur(Cold(s, data), data[Min(|data|, BUF_SIZE)..], allocs - 1);
    }
  }

  lemma SendCur(s: Ctx, data: seq<byte>, allocs: nat)
    requires Inv(s) && (s.send != [] && s.cur.Some? ==> HotOk(s))
    ensures var n := Min(|data|, IXEV_SEND_WIN_SIZE - (s.sendTotal - s.sentTotal));
      if s.dead || n <= 0 then Send(s, data, allocs).cur == s.cur else CurAfterSend(s, Send(s, data, allocs), n)
  {
    var n := WindowLen(s, |data|);
    if !s.dead && n > 0 {
      if s.send != [] && s.cur.Some? {
        ColdLoopCur(Hot(s, data[..n]), data[Fits(s.bufs[s.cur.value], n)..n], allocs);
      } else {
        ColdLoopCur(s, data[..n], allocs);
      }
    }
  }

  /** A copying send leaves the buffer it filled last at hand, unless it could get no further one; a zero-copy
      send that is accepted leaves none; an acknowledgement leaves it exactly when some reference still waits;
      nothing else touches it. */
  lemma BufferAtHand(s: Ctx, e: Event)
    requires Inv(s) && Enabled(s, e)
    ensures var r, free := Apply(s, e), IXEV_SEND_WIN_SIZE - (s.sendTotal - s.sentTotal);
      match e
      case SendEvent(data, _) =>
        if s.dead || data == [] || free == 0 then r.cur == s.cur else CurAfterSend(s, r, Min(|data|, free))
      case SendZcEvent(_) => r.cur == if r.sendTotal > s.sendTotal then None else s.cur
      case TcpSentEvent(_) => r.cur == if r.refs == [] then None else s.cur
      case _ => r.cur == s.cur
  {
    if e.SendEvent? {
      SendKeeps(s, e.data, e.allocs);
      SendCur(s, e.data, e.allocs);
    }
  }

  // ---------------------------------------------------------------------------------------------
  // The callbacks of the application
  // ---------------------------------------------------------------------------------------------

  /** Those among references. */
  function Users(refs: seq<Ref>): seq<Ref> {
    if refs == [] then [] else if refs[0].UserRef? then [refs[0]] + Users(refs[1..]) else Users(refs[1..])
  }

  /** Those a run registered, each for what had been accepted by then. */
  ghost function Callbacks(s: Ctx, events: seq<Event>): seq<Ref>
    requires Inv(s) && Legal(s, events)
    decreases |events|
  {
    if events == [] then []
    else
      ApplyKeeps(s, events[0]);
      Registers(events[0], |s.stream|) + Callbacks(Apply(s, events[0]), events[1..])
  }

  function Registers(e: Event, accepted: nat): seq<Ref> {
    if e.AddSentCbEvent? then [UserRef(e.cb, accepted)] else []
  }

  lemma {:induction false} UsersAppend(a: seq<Ref>, b: seq<Ref>, ab: seq<Ref>)
    requires ab == a + b
    ensures Users(ab) == Users(a) + Users(b)
    decreases |a|
  {
    if a == [] {
      assert ab == b;
    } else {
      var rest := a[1..];
      assert ab[1..] == rest + b;
      UsersAppend(rest, b, ab[1..]);
      CallbacksRegroup([a[0]], Users(rest), Users(b));
    }
  }

  lemma UsersSame(a: seq<Ref>, r: Ref, ar: seq<Ref>)
    requires ar == a + [r] && r.BufRef?
    ensures Users(ar) == Users(a)
  {
    UsersAppend(a, [r], ar);
    assert Users([r]) == [];
  }

  lemma {:induction false} ColdLoopUsers(s: Ctx, data: seq<byte>, allocs: nat)
    ensures Users(ColdLoop(s, data, allocs).refs) == Users(s.refs)
    ensures ColdLoop(s, data, allocs).fired == s.fired
    decreases |data|
  {
    if data != [] && |s.send| < IXEV_SEND_DEPTH && allocs > 0 {
      UsersSame(s.refs, BufRef(|s.bufs|), Cold(s, data).refs);
      ColdLoopUsers(Cold(s, data), data[Min(|data|, BUF_SIZE)..], allocs - 1);
    }
  }

  lemma SendUsers(s: Ctx, data: seq<byte>, allocs: nat)
    requires s.send != [] && s.cur.Some? ==> HotOk(s)
    ensures Users(Send(s, data, allocs).refs) == Users(s.refs) && Send(s, data, allocs).fired == s.fired
  {
    var n := WindowLen(s, |data|);
    if !s.dead && n > 0 {
      if s.send != [] && s.cur.Some? {
        ColdLoopUsers(Hot(s, data[..n]), data[Fits(s.bufs[s.cur.value], n)..n], allocs);
      } else {
        ColdLoopUsers(s, data[..n], allocs);
      }
    }
  }

  /** All of them, those that ran first. */
  function AllUsers(s: Ctx): seq<Ref> {
    Users(s.fired) + Users(s.refs)
  }

  lemma TcpSentUsers(s: Ctx, len: nat)
    ensures AllUsers(TcpSent(s, len)) == AllUsers(s)
  {
    var r, n := TcpSent(s, len), Ripe(s.refs, s.bufs, s.sentTotal + len);
    var a, b := s.refs[..n], s.refs[n..];
    UsersAppend(a, b, s.refs);
    UsersAppend(s.fired, a, r.fired);
    CallbacksRegroup(Users(s.fired), Users(a), Users(b));
  }

  lemma AddSentCbUsers(s: Ctx, cb: int)
    ensures AllUsers(AddSentCb(s, cb)) == AllUsers(s) + [UserRef(cb, s.sendTotal)]
  {
    var ref := UserRef(cb, s.sendTotal);
    UsersAppend(s.refs, [ref], s.refs + [ref]);
    assert Users([ref]) == [ref];
    CallbacksRegroup(Users(s.fired), Users(s.refs), [ref]);
  }

  lemma ApplyUsers(s: Ctx, e: Event)
    requires Inv(s) && Enabled(s, e)
    ensures AllUsers(Apply(s, e)) == AllUsers(s) + Registers(e, |s.stream|)
  {
    match e
    case SendEvent(data, allocs) => SendKeeps(s, data, allocs); SendUsers(s, data, allocs);
    case SendZcEvent(data) =>
    case AddSentCbEvent(cb) => AddSentCbUsers(s, cb);
    case SendvRetEvent(ret) =>
    case TcpSentEvent(len) => TcpSentUsers(s, len);
  }

  lemma {:induction false} ExecUsers(s: Ctx, events: seq<Event>)
    requires Inv(s) && Legal(s, events)
    ensures AllUsers(Exec(s, events)) == AllUsers(s) + Callbacks(s, events)
    decreases |events|
  {
    if events != [] {
      var r, rest := Apply(s, events[0]), events[1..];
      ApplyKeeps(s, events[0]);
      ApplyUsers(s, events[0]);
      ExecUsers(r, rest);
      CallbacksRegroup(AllUsers(s), Registers(events[0], |s.stream|), Callbacks(r, rest));
    }
  }

  lemma CallbacksRegroup(a: seq<Ref>, b: seq<Ref>, c: seq<Ref>)
    ensures (a + b) + c == a + (b + c)
  {
  }

  ghost function CallbacksOf(events: seq<Event>): seq<Ref>
    requires LegalRun(events)
  {
    InitInv();
    Callbacks(Init(), events)
  }

  /** Over any run, the callbacks of the application that have run, followed by those that wait, are exactly
      those it registered, in that order, each for the bytes accepted before it was registered. */
  lemma CallbacksKept(events: seq<Event>)
    requires LegalRun(events)
    ensures Users(Run(events).fired) + Users(Run(events).refs) == CallbacksOf(events)
  {
    InitInv();
    ExecUsers(Init(), events);
  }
}
