/** The user-level send path of libix/ixev.c with the copy buffers of libix/buf.h.

    `StreamInOrder`, `WindowKept`, `BuffersSafe` and `FiresExactly` are the results: over any run, the
    kernel is given exactly the accepted bytes in order, never more than a window of them is
    unacknowledged, no copy buffer is released or overwritten before its last byte is acknowledged, and a
    completion callback fires exactly when everything registered up to it is acknowledged.
    `CallbackExactly` says what that means for the data: a callback is never early, and late only for a copy
    buffer that was filled further after the callback had been registered. */
module IxevSend {
  import opened Common
  import opened Words

  const IXEV_SEND_WIN_SIZE: nat := 65536
  const IXEV_SEND_DEPTH: nat := 16
  const BUF_SIZE: nat := 1460 * 4

  /** struct sg_entry: a part of a copy buffer, or memory of the application. */
  datatype Sg = Copied(buf: nat, off: nat, len: nat) | Direct(bytes: seq<byte>)
  {
    function Len(): nat {
      if Copied? then len else |bytes|
    }
  }

  /** struct ixev_buf: its bytes so far and the send_pos of its reference; `start` is the position of its
      first byte in the stream of all accepted bytes. */
  datatype Buf = Buf(start: nat, data: seq<byte>, pos: nat)

  /** struct ixev_ref: that of a copy buffer, or one registered by the application. */
  datatype Ref = BufRef(buf: nat) | UserRef(cb: int, at: nat)

  /** struct ixev_ctx. The last three are what has happened so far: the bytes accepted from the
      application, the bytes the kernel took, the references whose callback has run. */
  datatype Ctx = Ctx(send: seq<Sg>, sendTotal: nat, sentTotal: nat, refs: seq<Ref>, bufs: seq<Buf>,
                     cur: Option<nat>, dead: bool,
                     stream: seq<byte>, handed: seq<byte>, fired: seq<Ref>)

  // ---------------------------------------------------------------------------------------------
  // The operations as functions
  // ---------------------------------------------------------------------------------------------

  /** ixev_ctx_init. */
  function Init(): Ctx {
    Ctx([], 0, 0, [], [], None, false, [], [], [])
  }

  /** ixev_window_len. */
  function WindowLen(s: Ctx, len: nat): int {
    Min(IXEV_SEND_WIN_SIZE - s.sendTotal + s.sentTotal, len)
  }

  /** ixev_buf_store: how much fits. */
  function Fits(b: Buf, len: nat): int {
    Min(len, BUF_SIZE - |b.data|)
  }

  function Fill(b: Buf, data: seq<byte>, pos: nat): Buf {
    Buf(b.start, b.data + data, pos)
  }

  /** Some bytes more, accepted. */
  function Accept(s: Ctx, data: seq<byte>): Ctx {
    s.(sendTotal := s.sendTotal + |data|, stream := s.stream + data)
  }

  ghost predicate HotOk(s: Ctx) {
    s.send != [] && s.cur.Some? && s.cur.value < |s.bufs| && s.send[|s.send| - 1].Copied? &&
    |s.bufs[s.cur.value].data| <= BUF_SIZE
  }

  /** The hot path of ixev_send: into the buffer at hand, growing the last entry. */
  function Hot(s: Ctx, data: seq<byte>): Ctx
    requires HotOk(s)
  {
    var id, last := s.cur.value, |s.send| - 1;
    var n := Fits(s.bufs[id], |data|);
    Accept(s.(bufs := s.bufs[id := Fill(s.bufs[id], data[..n], s.sendTotal + n)],
              send := s.send[last := s.send[last].(len := s.send[last].len + n)]), data[..n])
  }

  /** One turn of the cold path: a new buffer, a new entry and a new reference. */
  function Cold(s: Ctx, data: seq<byte>): Ctx {
    var n := Min(|data|, BUF_SIZE);
    var id := |s.bufs|;
    Accept(s.(bufs := s.bufs + [Buf(s.sendTotal, data[..n], s.sendTotal + n)], cur := Some(id),
              send := s.send + [Copied(id, 0, n)], refs := s.refs + [BufRef(id)]), data[..n])
  }

  /** The loop of the cold path, with `allocs` the number of buffers there still are. */
  function ColdLoop(s: Ctx, data: seq<byte>, allocs: nat): Ctx
    decreases |data|
  {
    if data == [] || |s.send| >= IXEV_SEND_DEPTH then s
    else if allocs == 0 then s.(cur := None)
    else ColdLoop(Cold(s, data), data[Min(|data|, BUF_SIZE)..], allocs - 1)
  }

  /** ixev_send; without room for a byte it is EAGAIN, on a dead connection EIO. */
  ghost function Send(s: Ctx, data: seq<byte>, allocs: nat): Ctx
    requires s.send != [] && s.cur.Some? ==> HotOk(s)
  {
    var n := WindowLen(s, |data|);
    if s.dead || n <= 0 then s
    else if s.send != [] && s.cur.Some? then
      var h := Fits(s.bufs[s.cur.value], n);
      ColdLoop(Hot(s, data[..n]), data[h..n], allocs)
    else ColdLoop(s, data[..n], allocs)
  }

  /** ixev_send_zc. */
  function SendZc(s: Ctx, data: seq<byte>): Ctx {
    var n := WindowLen(s, |data|);
    if s.dead || n <= 0 || |s.send| >= IXEV_SEND_DEPTH then s
    else Accept(s.(cur := None, send := s.send + [Direct(data[..n])]), data[..n])
  }

  /** ixev_add_sent_cb. */
  function AddSentCb(s: Ctx, cb: int): Ctx {
    s.(refs := s.refs + [UserRef(cb, s.sendTotal)])
  }

  /** The entries after the kernel took `n` bytes: ixev_handle_sendv_ret and ixev_shift_sends. */
  function Drop(send: seq<Sg>, n: nat): seq<Sg>
    decreases |send|
  {
    if send == [] then []
    else if n < send[0].Len() then [Skip(send[0], n)] + send[1..]
    else Drop(send[1..], n - send[0].Len())
  }

  function Skip(e: Sg, n: nat): Sg
    requires n <= e.Len()
  {
    if e.Copied? then Copied(e.buf, e.off + n, e.len - n) else Direct(e.bytes[n..])
  }

  /** ixev_handle_sendv_ret. */
  ghost function SendvRet(s: Ctx, ret: int): Ctx {
    if ret < 0 then s.(dead := true)
    else s.(send := Drop(s.send, ret), handed := s.handed + Taken(s.send, s.bufs, ret))
  }

  function Pos(r: Ref, bufs: seq<Buf>): nat {
    if r.UserRef? then r.at else if r.buf < |bufs| then bufs[r.buf].pos else 0
  }

  /** How many references the loop of ixev_tcp_sent goes through. */
  function Ripe(refs: seq<Ref>, bufs: seq<Buf>, sent: nat): (n: nat)
    ensures n <= |refs|
    decreases |refs|
  {
    if refs == [] || Pos(refs[0], bufs) > sent then 0 else 1 + Ripe(refs[1..], bufs, sent)
  }

  /** ixev_tcp_sent. */
  function TcpSent(s: Ctx, len: nat): Ctx {
    var sent := s.sentTotal + len;
    var n := Ripe(s.refs, s.bufs, sent);
    s.(sentTotal := sent, refs := s.refs[n..], fired := s.fired + s.refs[..n],
       cur := if n == |s.refs| then None else s.cur)
  }

  // ---------------------------------------------------------------------------------------------
  // The bytes described by entries
  // ---------------------------------------------------------------------------------------------

  predicate Describes(e: Sg, bufs: seq<Buf>) {
    e.Len() > 0 && (e.Copied? ==> e.buf < |bufs| && e.off + e.len <= |bufs[e.buf].data|)
  }

  /** Its bytes; an entry that describes nothing counts for nothing. */
  function Bytes(e: Sg, bufs: seq<Buf>): seq<byte> {
    if !Describes(e, bufs) then [] else if e.Copied? then bufs[e.buf].data[e.off..e.off + e.len] else e.bytes
  }

  ghost predicate AllDescribe(send: seq<Sg>, bufs: seq<Buf>) {
    forall i | 0 <= i < |send| :: Describes(send[i], bufs)
  }

  /** All of them, one after the other. */
  function Content(send: seq<Sg>, bufs: seq<Buf>): seq<byte>
    decreases |send|
  {
    if send == [] then [] else Bytes(send[0], bufs) + Content(send[1..], bufs)
  }

  /** The first `n` of them. */
  function Taken(send: seq<Sg>, bufs: seq<Buf>, n: nat): seq<byte> {
    var all := Content(send, bufs);
    if n <= |all| then all[..n] else all
  }

  // ---------------------------------------------------------------------------------------------
  // The invariant
  // ---------------------------------------------------------------------------------------------

  /** A copy buffer holds a piece of the stream, and its reference waits for all of it. */
  ghost predicate BufOk(b: Buf, stream: seq<byte>) {
    && b.pos == b.start + |b.data| <= |stream| && |b.data| <= BUF_SIZE
    && b.data == stream[b.start..b.pos]
  }

  /** The buffer at hand ends where the stream does, is still referenced, and the last entry ends where it
      does. */
  ghost predicate CurOk(s: Ctx) {
    s.cur.Some? ==>
      var id := s.cur.value;
      && id < |s.bufs| && BufRef(id) in s.refs && s.bufs[id].pos == s.sendTotal
      && (s.send != [] ==> Ends(s.send[|s.send| - 1], id, |s.bufs[id].data|))
  }

  predicate Ends(e: Sg, id: nat, end: nat) {
    e.Copied? && e.buf == id && e.off + e.len == end
  }

  /** References in the order of registration, fired ones first; every buffer has exactly one. */
  ghost predicate RefsOk(s: Ctx) {
    var all := s.fired + s.refs;
    && (forall i | 0 <= i < |all| :: RefOk(all[i], s))
    && (forall i, j | 0 <= i < j < |all| :: all[i].BufRef? && all[j].BufRef? ==> all[i].buf < all[j].buf)
    && (forall id | 0 <= id < |s.bufs| :: BufRef(id) in all)
    && (forall i | 0 <= i < |s.fired| :: Pos(s.fired[i], s.bufs) <= s.sentTotal)
  }

  predicate RefOk(r: Ref, s: Ctx) {
    (r.BufRef? ==> r.buf < |s.bufs|) && Pos(r, s.bufs) <= s.sendTotal
  }

  ghost predicate Inv(s: Ctx) {
    && |s.stream| == s.sendTotal && s.sentTotal <= |s.handed| && |s.send| <= IXEV_SEND_DEPTH
    && s.sendTotal - s.sentTotal <= IXEV_SEND_WIN_SIZE
    && AllDescribe(s.send, s.bufs) && s.handed + Content(s.send, s.bufs) == s.stream
    && (forall id | 0 <= id < |s.bufs| :: BufOk(s.bufs[id], s.stream))
    && CurOk(s) && RefsOk(s)
  }

  // ---------------------------------------------------------------------------------------------
  // Entries and buffers
  // ---------------------------------------------------------------------------------------------

  /** The buffers as they were, with more bytes in some, and more buffers. */
  ghost predicate Grown(a: seq<Buf>, b: seq<Buf>) {
    |a| <= |b| && forall id | 0 <= id < |a| :: a[id].data <= b[id].data
  }

  lemma {:induction false} ContentGrown(send: seq<Sg>, a: seq<Buf>, b: seq<Buf>)
    requires AllDescribe(send, a) && Grown(a, b)
    ensures AllDescribe(send, b) && Content(send, b) == Content(send, a)
    decreases |send|
  {
    if send != [] {
      var e, rest := send[0], send[1..];
      assert Describes(e, a);
      assert forall i | 0 <= i < |rest| :: rest[i] == send[i + 1];
      ContentGrown(rest, a, b);
      BytesGrown(e, a, b);
      assert forall i | 1 <= i < |send| :: send[i] == rest[i - 1];
    }
  }

  lemma BytesGrown(e: Sg, a: seq<Buf>, b: seq<Buf>)
    requires Describes(e, a) && Grown(a, b)
    ensures Describes(e, b) && Bytes(e, b) == Bytes(e, a)
  {
    if e.Copied? {
      assert a[e.buf].data <= b[e.buf].data;
    }
  }

  lemma {:induction false} ContentAppend(send: seq<Sg>, e: Sg, bufs: seq<Buf>, all: seq<Sg>)
    requires all == send + [e]
    ensures Content(all, bufs) == Content(send, bufs) + Bytes(e, bufs)
    decreases |send|
  {
    if send == [] {
      assert all[1..] == [];
      assert Content(all, bufs) == Bytes(e, bufs) + [];
    } else {
      var rest := send[1..];
      assert all[1..] == rest + [e];
      ContentAppend(rest, e, bufs, all[1..]);
      Regroup(Bytes(send[0], bufs), Content(rest, bufs), Bytes(e, bufs));
    }
  }

  lemma SliceJoined(a: seq<byte>, b: seq<byte>, n: nat)
    requires n <= |a| + |b|
    ensures (a + b)[n..] == if n < |a| then a[n..] + b else b[n - |a|..]
  {
  }

  /** What the kernel leaves is what it did not take. */
  lemma {:induction false} DropContent(send: seq<Sg>, bufs: seq<Buf>, n: nat)
    requires AllDescribe(send, bufs) && n <= |Content(send, bufs)|
    ensures AllDescribe(Drop(send, n), bufs) && |Drop(send, n)| <= |send|
    ensures Content(Drop(send, n), bufs) == Content(send, bufs)[n..]
    decreases |send|
  {
    if send != [] {
      var e, rest := send[0], send[1..];
      assert send == [e] + rest;
      DescribeRest(e, rest, bufs, send);
      SliceJoined(Bytes(e, bufs), Content(rest, bufs), n);
      if n < e.Len() {
        SkipBytes(e, bufs, n);
        var r := Drop(send, n);
        DescribeRest(Skip(e, n), rest, bufs, r);
        assert r[1..] == rest;
      } else {
        DropContent(rest, bufs, n - e.Len());
      }
    }
  }

  lemma DescribeRest(e: Sg, rest: seq<Sg>, bufs: seq<Buf>, send: seq<Sg>)
    requires send == [e] + rest
    ensures AllDescribe(send, bufs) <==> Describes(e, bufs) && AllDescribe(rest, bufs)
  {
    assert send[0] == e;
    assert forall i | 0 <= i < |rest| :: rest[i] == send[i + 1];
    assert forall i | 1 <= i < |send| :: send[i] == rest[i - 1];
  }

  lemma SkipBytes(e: Sg, bufs: seq<Buf>, n: nat)
    requires Describes(e, bufs) && n < e.Len()
    ensures Describes(Skip(e, n), bufs) && Bytes(Skip(e, n), bufs) == Bytes(e, bufs)[n..]
    ensures |Bytes(e, bufs)| == e.Len()
  {
  }

  lemma {:induction false} DropEnds(send: seq<Sg>, n: nat, id: nat, end: nat)
    requires send != [] && Ends(send[|send| - 1], id, end)
    ensures Drop(send, n) != [] ==> Ends(Drop(send, n)[|Drop(send, n)| - 1], id, end)
    decreases |send|
  {
    if n >= send[0].Len() && |send| > 1 {
      DropEnds(send[1..], n - send[0].Len(), id, end);
    }
  }

  lemma BufLater(b: Buf, stream: seq<byte>, more: seq<byte>)
    requires BufOk(b, stream)
    ensures BufOk(b, stream + more)
  {
    assert (stream + more)[b.start..b.pos] == stream[b.start..b.pos];
  }

  // ---------------------------------------------------------------------------------------------
  // Every operation keeps the invariant
  // ---------------------------------------------------------------------------------------------

  lemma InvHotOk(s: Ctx)
    requires Inv(s) && s.send != [] && s.cur.Some?
    ensures HotOk(s)
  {
    assert BufOk(s.bufs[s.cur.value], s.stream);
  }

  lemma HotContent(s: Ctx, data: seq<byte>)
    requires Inv(s) && s.send != [] && s.cur.Some? && HotOk(s)
    ensures var r := Hot(s, data);
      AllDescribe(r.send, r.bufs) && r.handed + Content(r.send, r.bufs) == r.stream
  {
    var r := Hot(s, data);
    var id, last := s.cur.value, |s.send| - 1;
    var more := data[..Fits(s.bufs[id], |data|)];
    LastGrows(s.send, s.send[..last], s.bufs, id, more, r.bufs, r.send[last], r.send);
    Regroup(s.handed, Content(s.send, s.bufs), more);
  }

  /** The last entry and the buffer it ends in grow together. */
  lemma LastGrows(send: seq<Sg>, front: seq<Sg>, bufs: seq<Buf>, id: nat, more: seq<byte>,
                  bufs': seq<Buf>, e': Sg, send': seq<Sg>)
    requires send != [] && front == send[..|send| - 1] && AllDescribe(send, bufs) && id < |bufs|
    requires Ends(send[|send| - 1], id, |bufs[id].data|) && |bufs'| == |bufs|
    requires bufs' == bufs[id := bufs'[id]] && bufs'[id].data == bufs[id].data + more
    requires e' == Copied(id, send[|send| - 1].off, send[|send| - 1].len + |more|) && send' == front + [e']
    ensures AllDescribe(send', bufs') && Content(send', bufs') == Content(send, bufs) + more
  {
    var e := send[|send| - 1];
    assert send == front + [e];
    DescribeFront(front, e, bufs, send);
    ContentAppend(front, e, bufs, send);
    BytesGrow(e, bufs[id].data, bufs, more, bufs', e');
    ContentGrown(front, bufs, bufs');
    ContentAppend(front, e', bufs', send');
    DescribeFront(front, e', bufs', send');
    Regroup(Content(front, bufs), Bytes(e, bufs), more);
  }

  lemma DescribeFront(front: seq<Sg>, e: Sg, bufs: seq<Buf>, send: seq<Sg>)
    requires send == front + [e]
    ensures AllDescribe(send, bufs) <==> AllDescribe(front, bufs) && Describes(e, bufs)
  {
    assert forall i | 0 <= i < |front| :: front[i] == send[i];
    assert send[|front|] == e;
  }

  lemma BytesGrow(e: Sg, data: seq<byte>, bufs: seq<Buf>, more: seq<byte>, bufs': seq<Buf>, e': Sg)
    requires Describes(e, bufs) && e.Copied? && data == bufs[e.buf].data && e.off + e.len == |data|
    requires |bufs'| == |bufs| && bufs' == bufs[e.buf := bufs'[e.buf]] && bufs'[e.buf].data == data + more
    requires e' == Copied(e.buf, e.off, e.len + |more|)
    ensures Describes(e', bufs') && Bytes(e', bufs') == Bytes(e, bufs) + more
    ensures Grown(bufs, bufs')
  {
    assert (data + more)[e.off..] == data[e.off..] + more;
  }

  lemma HotBufs(s: Ctx, data: seq<byte>, k: nat)
    requires Inv(s) && s.send != [] && s.cur.Some? && HotOk(s) && k < |s.bufs|
    ensures BufOk(Hot(s, data).bufs[k], Hot(s, data).stream)
  {
    var id := s.cur.value;
    var more := data[..Fits(s.bufs[id], |data|)];
    BufLater(s.bufs[k], s.stream, more);
    if k == id {
      FilledOk(s.bufs[id], s.stream, more);
    }
  }

  lemma FilledOk(b: Buf, stream: seq<byte>, more: seq<byte>)
    requires BufOk(b, stream) && b.pos == |stream| && |b.data| + |more| <= BUF_SIZE
    ensures BufOk(Fill(b, more, b.pos + |more|), stream + more)
  {
    assert (stream + more)[b.start..b.pos + |more|] == stream[b.start..b.pos] + more;
  }

  /** The reference of the buffer at hand has not fired. */
  lemma CurNotFired(s: Ctx, i: nat)
    requires RefsOk(s) && CurOk(s) && s.cur.Some? && i < |s.fired|
    ensures s.fired[i] != BufRef(s.cur.value)
  {
    var all := s.fired + s.refs;
    var j :| 0 <= j < |s.refs| && s.refs[j] == BufRef(s.cur.value);
    assert all[i] == s.fired[i] && all[|s.fired| + j] == s.refs[j];
  }

  lemma HotRefs(s: Ctx, data: seq<byte>)
    requires Inv(s) && s.send != [] && s.cur.Some? && HotOk(s)
    ensures RefsOk(Hot(s, data)) && CurOk(Hot(s, data))
  {
    var r := Hot(s, data);
    var all := s.fired + s.refs;
    forall i | 0 <= i < |all|
      ensures RefOk(all[i], r)
    {
      assert RefOk(all[i], s);
    }
    forall i | 0 <= i < |s.fired|
      ensures Pos(s.fired[i], r.bufs) <= r.sentTotal
    {
      CurNotFired(s, i);
    }
  }

  lemma HotKeeps(s: Ctx, data: seq<byte>)
    requires Inv(s) && s.send != [] && s.cur.Some? && HotOk(s)
    requires s.sendTotal + |data| - s.sentTotal <= IXEV_SEND_WIN_SIZE
    ensures Inv(Hot(s, data))
  {
    HotContent(s, data);
    HotRefs(s, data);
    var r := Hot(s, data);
    forall k | 0 <= k < |r.bufs|
      ensures BufOk(r.bufs[k], r.stream)
    {
      HotBufs(s, data, k);
    }
  }

  lemma ColdContent(s: Ctx, data: seq<byte>)
    requires Inv(s) && data != []
    ensures var r := Cold(s, data);
      AllDescribe(r.send, r.bufs) && r.handed + Content(r.send, r.bufs) == r.stream
  {
    var r := Cold(s, data);
    var more := data[..Min(|data|, BUF_SIZE)];
    var e := Copied(|s.bufs|, 0, |more|);
    ContentGrown(s.send, s.bufs, r.bufs);
    assert Bytes(e, r.bufs) == more;
    ContentAppend(s.send, e, r.bufs, r.send);
    DescribeFront(s.send, e, r.bufs, r.send);
    Regroup(s.handed, Content(s.send, s.bufs), more);
  }

  lemma ColdBufs(s: Ctx, data: seq<byte>, k: nat)
    requires Inv(s) && k <= |s.bufs|
    ensures BufOk(Cold(s, data).bufs[k], Cold(s, data).stream)
  {
    if k < |s.bufs| {
      BufLater(s.bufs[k], s.stream, data[..Min(|data|, BUF_SIZE)]);
    }
  }

  lemma ColdRefs(s: Ctx, data: seq<byte>)
    requires Inv(s) && data != []
    ensures RefsOk(Cold(s, data)) && CurOk(Cold(s, data))
  {
    var r := Cold(s, data);
    RefsAppended(s, r, BufRef(|s.bufs|));
  }

  /** A new reference at the end of the list. */
  lemma RefsAppended(s: Ctx, r: Ctx, ref: Ref)
    requires RefsOk(s) && r.fired == s.fired && r.refs == s.refs + [ref] && RefOk(ref, r)
    requires s.bufs <= r.bufs && s.sendTotal <= r.sendTotal && s.sentTotal == r.sentTotal
    requires if ref.BufRef? then ref.buf == |s.bufs| && |r.bufs| == |s.bufs| + 1 else r.bufs == s.bufs
    ensures RefsOk(r)
  {
    var all, now := s.fired + s.refs, r.fired + r.refs;
    assert now == all + [ref];
    forall i | 0 <= i < |now|
      ensures RefOk(now[i], r)
    {
      if i < |all| {
        assert RefOk(all[i], s);
      }
    }
    forall i, j | 0 <= i < j < |now| && now[i].BufRef? && now[j].BufRef?
      ensures now[i].buf < now[j].buf
    {
      assert RefOk(all[i], s) && now[i] == all[i];
    }
    forall i | 0 <= i < |s.fired|
      ensures Pos(s.fired[i], r.bufs) <= r.sentTotal
    {
      assert RefOk(all[i], s) && all[i] == s.fired[i];
    }
    forall id | 0 <= id < |r.bufs|
      ensures BufRef(id) in now
    {
      if id < |s.bufs| {
        assert BufRef(id) in all;
      } else {
        assert now[|all|] == BufRef(id);
      }
    }
  }

  lemma ColdKeeps(s: Ctx, data: seq<byte>)
    requires Inv(s) && data != [] && |s.send| < IXEV_SEND_DEPTH
    requires s.sendTotal + |data| - s.sentTotal <= IXEV_SEND_WIN_SIZE
    ensures Inv(Cold(s, data))
  {
    ColdContent(s, data);
    ColdRefs(s, data);
    var r := Cold(s, data);
    forall k | 0 <= k < |r.bufs|
      ensures BufOk(r.bufs[k], r.stream)
    {
      ColdBufs(s, data, k);
    }
  }

  lemma {:induction false} ColdLoopKeeps(s: Ctx, data: seq<byte>, allocs: nat)
    requires Inv(s) && s.sendTotal + |data| - s.sentTotal <= IXEV_SEND_WIN_SIZE
    ensures Inv(ColdLoop(s, data, allocs))
    decreases |data|
  {
    if data != [] && |s.send| < IXEV_SEND_DEPTH && allocs > 0 {
      var r, rest := Cold(s, data), data[Min(|data|, BUF_SIZE)..];
      ColdKeeps(s, data);
      ColdLoopKeeps(r, rest, allocs - 1);
    }
  }

  /** `r` is `s` with the first bytes of `data` accepted. */
  ghost predicate Accepts(s: Ctx, data: seq<byte>, r: Ctx) {
    && |s.stream| <= |r.stream| <= |s.stream| + |data|
    && r.stream == s.stream + data[..|r.stream| - |s.stream|]
    && r.sentTotal == s.sentTotal && r.handed == s.handed && r.fired == s.fired
  }

  lemma AcceptsJoin(s: Ctx, data: seq<byte>, n: nat, r: Ctx, t: Ctx)
    requires n <= |data| && r.stream == s.stream + data[..n] && Accepts(r, data[n..], t)
    requires r.sentTotal == s.sentTotal && r.handed == s.handed && r.fired == s.fired
    ensures Accepts(s, data, t)
  {
    var k := |t.stream| - |r.stream|;
    assert data[..n] + data[n..][..k] == data[..n + k];
    assert s.stream + data[..n] + data[n..][..k] == s.stream + (data[..n] + data[n..][..k]);
  }

  lemma {:induction false} ColdLoopAccepts(s: Ctx, data: seq<byte>, allocs: nat)
    ensures Accepts(s, data, ColdLoop(s, data, allocs))
    decreases |data|
  {
    if data != [] && |s.send| < IXEV_SEND_DEPTH && allocs > 0 {
      var n := Min(|data|, BUF_SIZE);
      var r, rest := Cold(s, data), data[n..];
      ColdLoopAccepts(r, rest, allocs - 1);
      AcceptsJoin(s, data, n, r, ColdLoop(r, rest, allocs - 1));
    } else {
      assert s.stream + data[..0] == s.stream;
    }
  }

  lemma AcceptsWithin(s: Ctx, data: seq<byte>, n: nat, r: Ctx)
    requires n <= |data| && Accepts(s, data[..n], r)
    ensures Accepts(s, data, r)
  {
    var k := |r.stream| - |s.stream|;
    assert data[..n][..k] == data[..k];
  }

  lemma SendKeeps(s: Ctx, data: seq<byte>, allocs: nat)
    requires Inv(s)
    ensures s.send != [] && s.cur.Some? ==> HotOk(s)
    ensures Inv(Send(s, data, allocs)) && Accepts(s, data, Send(s, data, allocs))
  {
    var n := WindowLen(s, |data|);
    if s.send != [] && s.cur.Some? {
      InvHotOk(s);
    }
    if s.dead || n <= 0 {
      assert s.stream + data[..0] == s.stream;
    } else if s.send != [] && s.cur.Some? {
      SendHotKeeps(s, data[..n], allocs);
      assert data[..n][Fits(s.bufs[s.cur.value], n)..] == data[Fits(s.bufs[s.cur.value], n)..n];
      AcceptsWithin(s, data, n, Send(s, data, allocs));
    } else {
      ColdLoopKeeps(s, data[..n], allocs);
      ColdLoopAccepts(s, data[..n], allocs);
      AcceptsWithin(s, data, n, Send(s, data, allocs));
    }
  }

  lemma SendHotKeeps(s: Ctx, data: seq<byte>, allocs: nat)
    requires Inv(s) && s.send != [] && s.cur.Some? && HotOk(s)
    requires s.sendTotal + |data| - s.sentTotal <= IXEV_SEND_WIN_SIZE
    ensures var r := ColdLoop(Hot(s, data), data[Fits(s.bufs[s.cur.value], |data|)..], allocs);
      Inv(r) && Accepts(s, data, r)
  {
    var h := Fits(s.bufs[s.cur.value], |data|);
    HotKeeps(s, data);
    ColdLoopKeeps(Hot(s, data), data[h..], allocs);
    ColdLoopAccepts(Hot(s, data), data[h..], allocs);
    AcceptsJoin(s, data, h, Hot(s, data), ColdLoop(Hot(s, data), data[h..], allocs));
  }

  lemma SendZcKeeps(s: Ctx, data: seq<byte>)
    requires Inv(s)
    ensures Inv(SendZc(s, data))
  {
    var n := WindowLen(s, |data|);
    if !s.dead && n > 0 && |s.send| < IXEV_SEND_DEPTH {
      var r := SendZc(s, data);
      ContentAppend(s.send, Direct(data[..n]), s.bufs, r.send);
      forall k | 0 <= k < |r.bufs|
        ensures BufOk(r.bufs[k], r.stream)
      {
        BufLater(s.bufs[k], s.stream, data[..n]);
      }
      var all := s.fired + s.refs;
      assert forall i | 0 <= i < |all| :: RefOk(all[i], s);
    }
  }

  lemma AddSentCbKeeps(s: Ctx, cb: int)
    requires Inv(s)
    ensures Inv(AddSentCb(s, cb))
  {
    RefsAppended(s, AddSentCb(s, cb), UserRef(cb, s.sendTotal));
  }

  lemma SplitAt(a: seq<byte>, b: seq<byte>, n: nat)
    requires n <= |b|
    ensures a + b[..n] + b[n..] == a + b
  {
    Regroup(a, b[..n], b[n..]);
    assert b[..n] + b[n..] == b;
  }

  lemma RefsSame(s: Ctx, r: Ctx)
    requires RefsOk(s) && r.fired == s.fired && r.refs == s.refs && r.bufs == s.bufs
    requires r.sendTotal == s.sendTotal && r.sentTotal == s.sentTotal
    ensures RefsOk(r)
  {
    forall i | 0 <= i < |r.fired + r.refs|
      ensures RefOk((r.fired + r.refs)[i], r)
    {
      assert RefOk((s.fired + s.refs)[i], s);
    }
  }

  lemma CurDropped(s: Ctx, r: Ctx, n: nat)
    requires CurOk(s) && r.cur == s.cur && r.bufs == s.bufs && r.refs == s.refs && r.sendTotal == s.sendTotal
    requires r.send == Drop(s.send, n) && |r.send| <= |s.send|
    ensures CurOk(r)
  {
    if s.cur.Some? && s.send != [] {
      DropEnds(s.send, n, s.cur.value, |s.bufs[s.cur.value].data|);
    }
  }

  lemma ContentDropped(send: seq<Sg>, bufs: seq<Buf>, n: nat, handed: seq<byte>, stream: seq<byte>)
    requires AllDescribe(send, bufs) && n <= |Content(send, bufs)| && handed + Content(send, bufs) == stream
    ensures AllDescribe(Drop(send, n), bufs) && |Drop(send, n)| <= |send|
    ensures (handed + Content(send, bufs)[..n]) + Content(Drop(send, n), bufs) == stream
  {
    DropContent(send, bufs, n);
    SplitAt(handed, Content(send, bufs), n);
  }

  lemma SendvRetKeeps(s: Ctx, ret: int)
    requires Inv(s) && ret <= |Content(s.send, s.bufs)|
    ensures Inv(SendvRet(s, ret))
  {
    RefsSame(s, SendvRet(s, ret));
    if ret >= 0 {
      ContentDropped(s.send, s.bufs, ret, s.handed, s.stream);
      CurDropped(s, SendvRet(s, ret), ret);
    }
  }

  /** The loop of ixev_tcp_sent stops at the first reference that has to wait. */
  lemma {:induction false} RipeExactly(refs: seq<Ref>, bufs: seq<Buf>, sent: nat, i: nat)
    requires i < |refs|
    ensures i < Ripe(refs, bufs, sent) <==> forall j | 0 <= j <= i :: Pos(refs[j], bufs) <= sent
    decreases |refs|
  {
    if Pos(refs[0], bufs) <= sent && i > 0 {
      var rest := refs[1..];
      RipeExactly(rest, bufs, sent, i - 1);
      assert forall j | 0 <= j < |rest| :: rest[j] == refs[j + 1];
      if forall j | 0 <= j <= i - 1 :: Pos(rest[j], bufs) <= sent {
        forall j | 0 <= j <= i
          ensures Pos(refs[j], bufs) <= sent
        {
          if j > 0 {
            assert rest[j - 1] == refs[j];
          }
        }
      }
    }
  }

  lemma TcpSentCur(s: Ctx, len: nat)
    requires Inv(s) && s.sentTotal + len <= |s.handed|
    ensures CurOk(TcpSent(s, len))
  {
    var r := TcpSent(s, len);
    var n := Ripe(s.refs, s.bufs, r.sentTotal);
    if r.cur.Some? {
      var j :| 0 <= j < |s.refs| && s.refs[j] == BufRef(s.cur.value);
      if j < n {
        RipeExactly(s.refs, s.bufs, r.sentTotal, j);
        assert r.sentTotal == s.sendTotal;
        AllRipe(s, r.sentTotal);
        assert false;
      }
      assert r.refs[j - n] == s.refs[j];
    }
  }

  lemma AllRipe(s: Ctx, sent: nat)
    requires RefsOk(s) && s.sendTotal <= sent
    ensures Ripe(s.refs, s.bufs, sent) == |s.refs|
  {
    var all := s.fired + s.refs;
    if s.refs != [] {
      forall j | 0 <= j < |s.refs|
        ensures Pos(s.refs[j], s.bufs) <= sent
      {
        assert all[|s.fired| + j] == s.refs[j] && RefOk(all[|s.fired| + j], s);
      }
      RipeExactly(s.refs, s.bufs, sent, |s.refs| - 1);
    }
  }

  lemma TcpSentKeeps(s: Ctx, len: nat)
    requires Inv(s) && s.sentTotal + len <= |s.handed|
    ensures Inv(TcpSent(s, len))
  {
    var r := TcpSent(s, len);
    var n := Ripe(s.refs, s.bufs, r.sentTotal);
    TcpSentCur(s, len);
    assert r.fired + r.refs == s.fired + s.refs;
    forall i | 0 <= i < |r.fired|
      ensures Pos(r.fired[i], r.bufs) <= r.sentTotal
    {
      if i >= |s.fired| {
        RipeExactly(s.refs, s.bufs, r.sentTotal, i - |s.fired|);
      }
    }
    var all := s.fired + s.refs;
    assert forall i | 0 <= i < |all| :: RefOk(all[i], s) ==> RefOk(all[i], r);
  }

  // ---------------------------------------------------------------------------------------------
  // Runs
  // ---------------------------------------------------------------------------------------------

  /** Calls of the application, returns of the sendv system call, and acknowledgements. */
  datatype Event =
    | SendEvent(data: seq<byte>, allocs: nat)
    | SendZcEvent(data: seq<byte>)
    | AddSentCbEvent(cb: int)
    | SendvRetEvent(ret: int)
    | TcpSentEvent(len: nat)

  /** The kernel takes no more than it was offered and reports no more acknowledged than it took. */
  ghost predicate Enabled(s: Ctx, e: Event) {
    match e
    case SendvRetEvent(ret) => ret <= |Content(s.send, s.bufs)|
    case TcpSentEvent(len) => s.sentTotal + len <= |s.handed|
    case _ => true
  }

  ghost function Apply(s: Ctx, e: Event): Ctx
    requires Inv(s) && Enabled(s, e)
  {
    match e
    case SendEvent(data, allocs) => SendKeeps(s, data, allocs); Send(s, data, allocs)
    case SendZcEvent(data) => SendZc(s, data)
    case AddSentCbEvent(cb) => AddSentCb(s, cb)
    case SendvRetEvent(ret) => SendvRet(s, ret)
    case TcpSentEvent(len) => TcpSent(s, len)
  }

  lemma ApplyKeeps(s: Ctx, e: Event)
    requires Inv(s) && Enabled(s, e)
    ensures Inv(Apply(s, e))
  {
    match e
    case SendEvent(data, allocs) => SendKeeps(s, data, allocs);
    case SendZcEvent(data) => SendZcKeeps(s, data);
    case AddSentCbEvent(cb) => AddSentCbKeeps(s, cb);
    case SendvRetEvent(ret) => SendvRetKeeps(s, ret);
    case TcpSentEvent(len) => TcpSentKeeps(s, len);
  }

  ghost predicate Legal(s: Ctx, events: seq<Event>)
    requires Inv(s)
    decreases |events|
  {
    events != [] ==>
      Enabled(s, events[0]) && (ApplyKeeps(s, events[0]); Legal(Apply(s, events[0]), events[1..]))
  }

  ghost function Exec(s: Ctx, events: seq<Event>): (r: Ctx)
    requires Inv(s) && Legal(s, events)
    ensures Inv(r)
    decreases |events|
  {
    if events == [] then s
    else ApplyKeeps(s, events[0]); Exec(Apply(s, events[0]), events[1..])
  }

  lemma InitInv()
    ensures Inv(Init())
  {
  }

  /** What a run accepted, by the return values alone: of every send, as many bytes from the front of its
      data as the call returned. */
  ghost function Accepted(s: Ctx, events: seq<Event>): seq<byte>
    requires Inv(s) && Legal(s, events)
    decreases |events|
  {
    if events == [] then []
    else
      ApplyKeeps(s, events[0]);
      var r := Apply(s, events[0]);
      AcceptedPart(events[0], r.sendTotal - s.sendTotal) + Accepted(r, events[1..])
  }

  function AcceptedPart(e: Event, n: int): seq<byte> {
    match e
    case SendEvent(data, _) => if 0 <= n <= |data| then data[..n] else []
    case SendZcEvent(data) => if 0 <= n <= |data| then data[..n] else []
    case _ => []
  }

  lemma ApplyAccepts(s: Ctx, e: Event)
    requires Inv(s) && Enabled(s, e)
    ensures Inv(Apply(s, e)) && Apply(s, e).stream == s.stream + AcceptedPart(e, Apply(s, e).sendTotal - s.sendTotal)
  {
    ApplyKeeps(s, e);
    if e.SendEvent? {
      SendKeeps(s, e.data, e.allocs);
    } else if e.SendZcEvent? && Apply(s, e) == s {
      assert s.stream + e.data[..0] == s.stream;
    }
  }

  lemma {:induction false} ExecAccepts(s: Ctx, events: seq<Event>)
    requires Inv(s) && Legal(s, events)
    ensures Exec(s, events).stream == s.stream + Accepted(s, events)
    decreases |events|
  {
    if events != [] {
      ApplyAccepts(s, events[0]);
      var r := Apply(s, events[0]);
      ExecAccepts(r, events[1..]);
      Regroup(s.stream, AcceptedPart(events[0], r.sendTotal - s.sendTotal), Accepted(r, events[1..]));
    }
  }

  /** A run of a new context. */
  ghost predicate LegalRun(events: seq<Event>) {
    InitInv();
    Legal(Init(), events)
  }

  ghost function Run(events: seq<Event>): (s: Ctx)
    requires LegalRun(events)
    ensures Inv(s)
  {
    InitInv();
    Exec(Init(), events)
  }

  ghost function AcceptedBy(events: seq<Event>): seq<byte>
    requires LegalRun(events)
  {
    InitInv();
    Accepted(Init(), events)
  }

  /** Over any run, what the kernel was given, followed by what is still described by the scatter-gather
      list, is exactly what was accepted, in order: nothing lost, repeated or reordered. */
  lemma StreamInOrder(events: seq<Event>)
    requires LegalRun(events)
    ensures var s := Run(events);
      s.handed + Content(s.send, s.bufs) == s.stream == AcceptedBy(events)
  {
    InitInv();
    ExecAccepts(Init(), events);
  }

  /** Never more than a window is unacknowledged, and the list never overflows. */
  lemma WindowKept(events: seq<Event>)
    requires LegalRun(events)
    ensures var s := Run(events);
      && s.sendTotal == |AcceptedBy(events)|
      && 0 <= s.sendTotal - s.sentTotal <= IXEV_SEND_WIN_SIZE
      && |s.send| <= IXEV_SEND_DEPTH
  {
    StreamInOrder(events);
  }

  /** Where a copy buffer lies in the stream, and when it may have been released. */
  ghost predicate Safe(b: Buf, stream: seq<byte>, released: bool, acked: nat) {
    var end := b.start + |b.data|;
    end <= |stream| && b.data == stream[b.start..end] && (released ==> end <= acked)
  }

  lemma BufferSafe(s: Ctx, id: nat)
    requires Inv(s) && id < |s.bufs|
    ensures Safe(s.bufs[id], s.stream, BufRef(id) in s.fired, s.sentTotal)
    ensures BufRef(id) in s.fired || BufRef(id) in s.refs
  {
    assert BufOk(s.bufs[id], s.stream);
    assert BufRef(id) in s.fired + s.refs;
    if BufRef(id) in s.fired {
      var k :| 0 <= k < |s.fired| && s.fired[k] == BufRef(id);
      assert Pos(s.fired[k], s.bufs) <= s.sentTotal;
    }
  }

  /** A buffer is released at most once. */
  lemma ReleasedOnce(s: Ctx, i: nat, j: nat)
    requires Inv(s) && i < |s.fired| && s.fired[i].BufRef?
    ensures i < j < |s.fired| ==> s.fired[i] != s.fired[j]
    ensures j < |s.refs| ==> s.fired[i] != s.refs[j]
  {
    var all := s.fired + s.refs;
    assert all[i] == s.fired[i];
    if i < j < |s.fired| {
      assert all[j] == s.fired[j];
    }
    if j < |s.refs| {
      assert all[|s.fired| + j] == s.refs[j];
    }
  }

  /** Over any run, a copy buffer holds its piece of the accepted stream unchanged, and once it has been
      released every byte of that piece is acknowledged; until then its reference waits in the list. The
      buffer that would be filled next ends where the stream does and has not been released. */
  lemma BuffersSafe(events: seq<Event>, id: nat)
    requires LegalRun(events) && id < |Run(events).bufs|
    ensures var s := Run(events);
      && Safe(s.bufs[id], AcceptedBy(events), BufRef(id) in s.fired, s.sentTotal)
      && (BufRef(id) in s.fired || BufRef(id) in s.refs)
      && (s.cur == Some(id) ==> BufRef(id) !in s.fired && s.bufs[id].start + |s.bufs[id].data| == s.sendTotal)
  {
    StreamInOrder(events);
    var s := Run(events);
    BufferSafe(s, id);
    if s.cur == Some(id) {
      forall k | 0 <= k < |s.fired|
        ensures s.fired[k] != BufRef(id)
      {
        CurNotFired(s, k);
      }
    }
  }

  /** An acknowledgement fires a waiting callback exactly when it covers everything registered up to it. */
  lemma FiresExactly(s: Ctx, len: nat, i: nat)
    requires Inv(s) && s.sentTotal + len <= |s.handed| && i < |s.refs|
    ensures var r := TcpSent(s, len);
      && |s.fired| <= |r.fired| <= |s.fired| + |s.refs| && r.fired == s.fired + s.refs[..|r.fired| - |s.fired|]
      && (i < |r.fired| - |s.fired| <==> forall j | 0 <= j <= i :: Pos(s.refs[j], s.bufs) <= s.sentTotal + len)
  {
    RipeExactly(s.refs, s.bufs, s.sentTotal + len, i);
  }

  /** When everything is acknowledged, nothing is left waiting. */
  lemma NothingLeftWaiting(s: Ctx, len: nat)
    requires Inv(s) && s.sentTotal + len == s.sendTotal == |s.handed|
    ensures TcpSent(s, len).refs == [] && TcpSent(s, len).cur == None
  {
    AllRipe(s, s.sendTotal);
  }

  // ---------------------------------------------------------------------------------------------
  // When a callback of the application runs
  // ---------------------------------------------------------------------------------------------

  /** Where the stream was when a reference was registered. */
  function Start(r: Ref, bufs: seq<Buf>): nat {
    if r.UserRef? then r.at else if r.buf < |bufs| then bufs[r.buf].start else 0
  }

  /** `a` was registered before `b`, and a buffer is not empty when it is registered. */
  predicate Earlier(a: Ref, b: Ref, bufs: seq<Buf>) {
    if a.UserRef? then a.at <= Start(b, bufs) else b.UserRef? ==> Start(a, bufs) < b.at
  }

  predicate Begun(r: Ref, bufs: seq<Buf>, total: nat) {
    if r.UserRef? then r.at <= total else r.buf < |bufs| && bufs[r.buf].start < total
  }

  /** The waiting references stand in the order of registration. */
  ghost predicate Registered(refs: seq<Ref>, bufs: seq<Buf>, total: nat) {
    && (forall i | 0 <= i < |refs| :: Begun(refs[i], bufs, total))
    && (forall i, j | 0 <= i < j < |refs| :: Earlier(refs[i], refs[j], bufs))
  }

  /** Buffers that keep their start, and some more. */
  ghost predicate SameStarts(a: seq<Buf>, b: seq<Buf>) {
    |a| <= |b| && forall id | 0 <= id < |a| :: a[id].start == b[id].start
  }

  lemma RegisteredLater(refs: seq<Ref>, bufs: seq<Buf>, total: nat, bufs': seq<Buf>, total': nat)
    requires Registered(refs, bufs, total) && SameStarts(bufs, bufs') && total <= total'
    ensures Registered(refs, bufs', total')
  {
    forall i | 0 <= i < |refs|
      ensures Begun(refs[i], bufs', total') && Start(refs[i], bufs') == Start(refs[i], bufs)
    {
      assert Begun(refs[i], bufs, total);
    }
  }

  lemma RegisteredMore(refs: seq<Ref>, bufs: seq<Buf>, total: nat, ref: Ref, bufs': seq<Buf>, total': nat)
    requires Registered(refs, bufs, total) && SameStarts(bufs, bufs') && total <= total'
    requires Begun(ref, bufs', total') && Start(ref, bufs') == total
    ensures Registered(refs + [ref], bufs', total')
  {
    RegisteredLater(refs, bufs, total, bufs', total');
    forall i | 0 <= i < |refs|
      ensures Earlier(refs[i], ref, bufs')
    {
      assert Begun(refs[i], bufs, total);
    }
  }

  ghost predicate InTurn(s: Ctx) {
    Registered(s.refs, s.bufs, s.sendTotal)
  }

  lemma {:induction false} ColdLoopInTurn(s: Ctx, data: seq<byte>, allocs: nat)
    requires InTurn(s)
    ensures InTurn(ColdLoop(s, data, allocs))
    decreases |data|
  {
    if data != [] && |s.send| < IXEV_SEND_DEPTH && allocs > 0 {
      var r := Cold(s, data);
      RegisteredMore(s.refs, s.bufs, s.sendTotal, BufRef(|s.bufs|), r.bufs, r.sendTotal);
      ColdLoopInTurn(r, data[Min(|data|, BUF_SIZE)..], allocs - 1);
    }
  }

  lemma SendInTurn(s: Ctx, data: seq<byte>, allocs: nat)
    requires InTurn(s) && (s.send != [] && s.cur.Some? ==> HotOk(s))
    ensures InTurn(Send(s, data, allocs))
  {
    var n := WindowLen(s, |data|);
    if !s.dead && n > 0 {
      if s.send != [] && s.cur.Some? {
        var r := Hot(s, data[..n]);
        RegisteredLater(s.refs, s.bufs, s.sendTotal, r.bufs, r.sendTotal);
        ColdLoopInTurn(r, data[Fits(s.bufs[s.cur.value], n)..n], allocs);
      } else {
        ColdLoopInTurn(s, data[..n], allocs);
      }
    }
  }

  lemma ApplyInTurn(s: Ctx, e: Event)
    requires Inv(s) && Enabled(s, e) && InTurn(s)
    ensures InTurn(Apply(s, e))
  {
    match e
    case SendEvent(data, allocs) =>
      SendKeeps(s, data, allocs);
      SendInTurn(s, data, allocs);
    case SendZcEvent(data) => RegisteredLater(s.refs, s.bufs, s.sendTotal, s.bufs, SendZc(s, data).sendTotal);
    case AddSentCbEvent(cb) =>
      RegisteredMore(s.refs, s.bufs, s.sendTotal, UserRef(cb, s.sendTotal), s.bufs, s.sendTotal);
    case SendvRetEvent(ret) =>
    case TcpSentEvent(len) =>
  }

  lemma {:induction false} ExecInTurn(s: Ctx, events: seq<Event>)
    requires Inv(s) && Legal(s, events) && InTurn(s)
    ensures InTurn(Exec(s, events))
    decreases |events|
  {
    if events != [] {
      ApplyKeeps(s, events[0]);
      ApplyInTurn(s, events[0]);
      ExecInTurn(Apply(s, events[0]), events[1..]);
    }
  }

  /** A copy buffer has bytes from before position `at` and some that are not acknowledged. */
  predicate Spans(b: Buf, at: nat, ack: nat) {
    b.start < at && ack < b.start + |b.data|
  }

  /** An acknowledgement makes the callback of waiting reference i run. */
  ghost predicate Fires(s: Ctx, len: nat, i: nat) {
    s.fired + s.refs[..Min(i + 1, |s.refs|)] <= TcpSent(s, len).fired
  }

  lemma FiresRipe(s: Ctx, len: nat, i: nat)
    requires i < |s.refs|
    ensures Fires(s, len, i) <==> forall j | 0 <= j <= i :: Pos(s.refs[j], s.bufs) <= s.sentTotal + len
  {
    RipeExactly(s.refs, s.bufs, s.sentTotal + len, i);
    var n := Ripe(s.refs, s.bufs, s.sentTotal + len);
    if i < n {
      assert s.refs[..n] == s.refs[..i + 1] + s.refs[i + 1..n];
    } else {
      assert |TcpSent(s, len).fired| == |s.fired| + n;
    }
  }

  /** Over every run: an acknowledgement makes a waiting callback of the application run exactly when it
      covers all that was accepted before the callback was registered, and no copy buffer that had bytes
      then has been filled past it since. So it is never early, and late only for such a buffer. */
  lemma CallbackExactly(events: seq<Event>, len: nat, i: nat)
    requires LegalRun(events) && Enabled(Run(events), TcpSentEvent(len))
    requires i < |Run(events).refs| && Run(events).refs[i].UserRef?
    ensures var s := Run(events); var ack := s.sentTotal + len; var at := s.refs[i].at;
      Fires(s, len, i) <==> at <= ack && forall id | 0 <= id < |s.bufs| :: !Spans(s.bufs[id], at, ack)
  {
    InitInv();
    ExecInTurn(Init(), events);
    CallbackWaits(Run(events), len, i);
  }

  lemma CallbackWaits(s: Ctx, len: nat, i: nat)
    requires Inv(s) && InTurn(s) && i < |s.refs| && s.refs[i].UserRef?
    ensures var ack := s.sentTotal + len; var at := s.refs[i].at;
      Fires(s, len, i) <==> at <= ack && forall id | 0 <= id < |s.bufs| :: !Spans(s.bufs[id], at, ack)
  {
    var ack, at := s.sentTotal + len, s.refs[i].at;
    FiresRipe(s, len, i);
    if Fires(s, len, i) {
      forall id | 0 <= id < |s.bufs|
        ensures !Spans(s.bufs[id], at, ack)
      {
        StraddlerBefore(s, ack, i, id);
      }
    } else if at <= ack {
      var j :| 0 <= j <= i && Pos(s.refs[j], s.bufs) > ack;
      assert j < i && Earlier(s.refs[j], s.refs[i], s.bufs);
      assert (s.fired + s.refs)[|s.fired| + j] == s.refs[j] && RefOk(s.refs[j], s);
      assert BufOk(s.bufs[s.refs[j].buf], s.stream);
      assert Spans(s.bufs[s.refs[j].buf], at, ack);
    }
  }

  /** A buffer that spans the position of a callback waits in front of it. */
  lemma StraddlerBefore(s: Ctx, ack: nat, i: nat, id: nat)
    requires Inv(s) && InTurn(s) && i < |s.refs| && s.refs[i].UserRef? && id < |s.bufs| && s.sentTotal <= ack
    requires forall j | 0 <= j <= i :: Pos(s.refs[j], s.bufs) <= ack
    ensures !Spans(s.bufs[id], s.refs[i].at, ack)
  {
    BufferSafe(s, id);
    assert BufOk(s.bufs[id], s.stream);
    if BufRef(id) !in s.fired {
      var k :| 0 <= k < |s.refs| && s.refs[k] == BufRef(id);
      if k > i {
        assert Earlier(s.refs[i], s.refs[k], s.bufs);
      } else {
        assert Pos(s.refs[k], s.bufs) <= ack;
      }
    }
  }

  /** That happens: data sent, a callback registered, more data that goes into the same buffer, all of it
      taken by the kernel, and all that was sent before the registration acknowledged. The callback still
      waits. */
  lemma CallbackHeldBack(first: seq<byte>, more: seq<byte>, cb: int) returns (events: seq<Event>)
    requires first != [] && more != [] && |first| + |more| <= BUF_SIZE
    ensures LegalRun(events)
    ensures Run(events).sentTotal == |first| && UserRef(cb, |first|) in Run(events).refs
  {
    var sum := |first| + |more|;
    InitInv();
    var s1 := FirstSend(first);
    AddSentCbKeeps(s1, cb);
    var s3 := SecondSend(AddSentCb(s1, cb), first, more);
    SendvRetKeeps(s3, sum);
    var s4 := SendvRet(s3, sum);
    TcpSentKeeps(s4, |first|);
    assert s4.refs[0] == BufRef(0) && Ripe(s4.refs, s4.bufs, |first|) == 0;
    var e5 := [TcpSentEvent(|first|)];
    StepRun(s4, e5[0], [], e5);
    var e4 := [SendvRetEvent(sum)] + e5;
    StepRun(s3, e4[0], e5, e4);
    var e3 := [SendEvent(more, 0)] + e4;
    StepRun(AddSentCb(s1, cb), e3[0], e4, e3);
    var e2 := [AddSentCbEvent(cb)] + e3;
    StepRun(s1, e2[0], e3, e2);
    events := [SendEvent(first, 1)] + e2;
    StepRun(Init(), events[0], e2, events);
    assert s4.refs[1] == UserRef(cb, |first|);
  }

  lemma StepRun(s: Ctx, e: Event, rest: seq<Event>, events: seq<Event>)
    requires Inv(s) && Enabled(s, e) && events == [e] + rest
    requires Inv(Apply(s, e)) && Legal(Apply(s, e), rest)
    ensures Legal(s, events) && Exec(s, events) == Exec(Apply(s, e), rest)
  {
    assert events[1..] == rest;
  }

  lemma FirstSend(data: seq<byte>) returns (s: Ctx)
    requires Inv(Init()) && 0 < |data| <= BUF_SIZE
    ensures Inv(s) && s == Apply(Init(), SendEvent(data, 1))
    ensures s == Ctx([Copied(0, 0, |data|)], |data|, 0, [BufRef(0)], [Buf(0, data, |data|)], Some(0), false, data,
                     [], [])
  {
    s := Ctx([Copied(0, 0, |data|)], |data|, 0, [BufRef(0)], [Buf(0, data, |data|)], Some(0), false, data, [], []);
    FirstCold(Init(), data, s);
    SendKeeps(Init(), data, 1);
    assert data[..|data|] == data;
  }

  lemma FirstCold(s: Ctx, data: seq<byte>, r: Ctx)
    requires s == Init() && 0 < |data| <= BUF_SIZE
    requires r == Ctx([Copied(0, 0, |data|)], |data|, 0, [BufRef(0)], [Buf(0, data, |data|)], Some(0), false, data,
                     [], [])
    ensures ColdLoop(s, data, 1) == r
  {
    assert data[..|data|] == data && data[|data|..] == [];
    assert Cold(s, data) == r;
  }

  lemma SecondSend(s: Ctx, first: seq<byte>, more: seq<byte>) returns (r: Ctx)
    requires Inv(s) && !s.dead && first != [] && more != [] && |first| + |more| <= BUF_SIZE && s.handed == []
    requires s.send == [Copied(0, 0, |first|)] && s.cur == Some(0) && s.bufs == [Buf(0, first, |first|)]
    requires s.sendTotal == |first| && s.sentTotal == 0
    ensures Inv(r) && r == Apply(s, SendEvent(more, 0))
    ensures r.refs == s.refs && |r.bufs| == 1 && r.bufs[0].pos == |first| + |more| && r.sentTotal == 0
    ensures r.handed == [] && |Content(r.send, r.bufs)| == |first| + |more| && r.fired == s.fired
  {
    SendKeeps(s, more, 0);
    SendOnlyHot(s, more, 0);
    r := Hot(s, more);
    assert r.handed + Content(r.send, r.bufs) == r.stream;
  }

  lemma SendOnlyHot(s: Ctx, data: seq<byte>, allocs: nat)
    requires !s.dead && s.send != [] && s.cur.Some? && HotOk(s) && data != []
    requires |data| <= WindowLen(s, |data|) && |data| <= BUF_SIZE - |s.bufs[s.cur.value].data|
    ensures Send(s, data, allocs) == Hot(s, data)
  {
    assert data[..|data|] == data && data[|data|..|data|] == [];
  }

  /** ixev_send on the part of the data that is within the window. */
  lemma SendIs(s: Ctx, data: seq<byte>, allocs: nat, now: seq<byte>)
    requires !s.dead && WindowLen(s, |data|) > 0 && now == data[..WindowLen(s, |data|)]
    requires s.send != [] && s.cur.Some? ==> HotOk(s)
    ensures Send(s, data, allocs) ==
              if s.send != [] && s.cur.Some?
              then ColdLoop(Hot(s, now), now[Fits(s.bufs[s.cur.value], |now|)..], allocs)
              else ColdLoop(s, now, allocs)
  {
    if s.send != [] && s.cur.Some? {
      var n, h := |now|, Fits(s.bufs[s.cur.value], |now|);
      assert data[h..n] == now[h..];
    }
  }

  // ---------------------------------------------------------------------------------------------
  // The program
  // ---------------------------------------------------------------------------------------------

  /** The number of bytes accepted, or none for EAGAIN and EIO. */
  predicate Returned(ret: Option<nat>, before: nat, after: nat) {
    before <= after && ret == if after == before then None else Some(after - before)
  }

  /** struct ixev_ctx, with the pool of copy buffers. */
  class IxevCtx {
    const send: array<Sg>
    var sendCount: nat
    var sendTotal: nat
    var sentTotal: nat
    var refs: seq<Ref>
    var bufs: seq<Buf>
    var curBuf: Option<nat>
    var isDead: bool
    ghost var stream: seq<byte>
    ghost var handed: seq<byte>
    ghost var fired: seq<Ref>

    ghost predicate Shaped()
      reads this
    {
      send.Length == IXEV_SEND_DEPTH && sendCount <= IXEV_SEND_DEPTH
    }

    ghost function Model(): Ctx
      requires Shaped()
      reads this, send
    {
      Ctx(send[..sendCount], sendTotal, sentTotal, refs, bufs, curBuf, isDead, stream, handed, fired)
    }

    /** In the middle of ixev_send, with `more` accepted but not yet counted. */
    ghost function During(more: nat): Ctx
      requires Shaped()
      reads this, send
    {
      Model().(sendTotal := sendTotal + more)
    }

    constructor ()
      ensures Shaped() && fresh(send) && Model() == Init() && Inv(Model())
    {
      send := new Sg[IXEV_SEND_DEPTH](_ => Direct([]));
      sendCount, sendTotal, sentTotal, refs, bufs, curBuf, isDead := 0, 0, 0, [], [], None, false;
      stream, handed, fired := [], [], [];
      new;
      InitInv();
    }

    /** ixev_send: the number of bytes accepted, or none (EAGAIN, EIO). */
    method SendCopy(data: seq<byte>, allocs: nat) returns (ret: Option<nat>)
      requires Shaped() && Inv(Model())
      modifies this, send
      ensures Shaped() && Inv(Model())
      ensures (old(Model()).send != [] && old(Model()).cur.Some? ==> HotOk(old(Model()))) &&
              Model() == Send(old(Model()), data, allocs)
      ensures Returned(ret, old(sendTotal), sendTotal)
    {
      SendKeeps(Model(), data, allocs);
      ret := SendInWindow(data, allocs);
    }

    /** The body of ixev_send. */
    method SendInWindow(data: seq<byte>, allocs: nat) returns (ret: Option<nat>)
      requires Shaped() && sendTotal - sentTotal <= IXEV_SEND_WIN_SIZE
      requires Model().send != [] && curBuf.Some? ==> HotOk(Model())
      modifies this, send
      ensures Shaped() && Model() == Send(old(Model()), data, allocs)
      ensures Returned(ret, old(sendTotal), sendTotal)
    {
      var actual := Min(IXEV_SEND_WIN_SIZE - sendTotal + sentTotal, |data|);
      if isDead || actual == 0 {
        return None;
      }
      SendIs(Model(), data, allocs, data[..actual]);
      var soFar := SendNow(data[..actual], allocs);
      sendTotal := sendTotal + soFar;
      if soFar == 0 {
        return None;
      }
      return Some(soFar);
    }

    /** The two paths of ixev_send. */
    method SendNow(now: seq<byte>, allocs: nat) returns (soFar: nat)
      requires Shaped() && (sendCount > 0 && curBuf.Some? ==> HotOk(Model()))
      modifies this`bufs, this`stream, this`refs, this`curBuf, this`sendCount, send
      ensures Shaped()
      ensures During(soFar) ==
                if old(Model().send != [] && curBuf.Some?)
                then ColdLoop(Hot(old(Model()), now), now[Fits(old(bufs[curBuf.value]), |now|)..], allocs)
                else ColdLoop(old(Model()), now, allocs)
    {
      soFar := 0;
      if sendCount > 0 && curBuf.Some? {
        soFar := StoreHot(now);
      }
      assert now[0..] == now;
      soFar := FillNew(now, soFar, allocs);
    }

    /** The hot path. */
    method StoreHot(data: seq<byte>) returns (n: nat)
      requires Shaped() && HotOk(Model())
      modifies this`bufs, this`stream, send
      ensures Shaped() && n == Fits(old(bufs)[curBuf.value], |data|) && During(n) == Hot(old(Model()), data)
    {
      var id := curBuf.value;
      n := Min(|data|, BUF_SIZE - |bufs[id].data|);
      bufs := bufs[id := Fill(bufs[id], data[..n], sendTotal + n)];
      var last := sendCount - 1;
      ghost var before := send[..sendCount];
      send[last] := send[last].(len := send[last].len + n);
      assert send[..sendCount] == before[last := send[last]];
      stream := stream + data[..n];
    }

    /** The cold path, from byte `start` of the data on. */
    method FillNew(data: seq<byte>, start: nat, allocs: nat) returns (soFar: nat)
      requires Shaped() && start <= |data|
      modifies this`bufs, this`stream, this`refs, this`curBuf, this`sendCount, send
      ensures Shaped() && start <= soFar <= |data|
      ensures During(soFar) == ColdLoop(old(During(start)), data[start..], allocs)
    {
      soFar := start;
      var left := allocs;
      while soFar < |data|
        invariant Shaped() && start <= soFar <= |data|
        invariant ColdLoop(During(soFar), data[soFar..], left) == ColdLoop(old(During(start)), data[start..], allocs)
      {
        if sendCount >= IXEV_SEND_DEPTH {
          return;
        }
        if left == 0 {
          curBuf := None;
          return;
        }
        left := left - 1;
        var n := AddBuffer(data[soFar..], soFar);
        assert data[soFar..][n..] == data[soFar + n..];
        soFar := soFar + n;
      }
      assert data[soFar..] == [];
    }

    /** One turn of the loop, with `soFar` bytes accepted before it. */
    method AddBuffer(data: seq<byte>, soFar: nat) returns (n: nat)
      requires Shaped() && data != [] && sendCount < IXEV_SEND_DEPTH
      modifies this`bufs, this`stream, this`refs, this`curBuf, this`sendCount, send
      ensures Shaped() && n == Min(|data|, BUF_SIZE) && During(soFar + n) == Cold(old(During(soFar)), data)
    {
      n := Min(|data|, BUF_SIZE);
      var id := |bufs|;
      bufs := bufs + [Buf(sendTotal + soFar, data[..n], sendTotal + soFar + n)];
      curBuf := Some(id);
      ghost var before := send[..sendCount];
      send[sendCount] := Copied(id, 0, n);
      sendCount := sendCount + 1;
      assert send[..sendCount] == before + [Copied(id, 0, n)];
      refs := refs + [BufRef(id)];
      stream := stream + data[..n];
    }

    /** ixev_send_zc. */
    method SendDirect(data: seq<byte>) returns (ret: Option<nat>)
      requires Shaped() && Inv(Model())
      modifies this, send
      ensures Shaped() && Inv(Model()) && Model() == SendZc(old(Model()), data)
      ensures Returned(ret, old(sendTotal), sendTotal)
    {
      SendZcKeeps(Model(), data);
      var actual := Min(IXEV_SEND_WIN_SIZE - sendTotal + sentTotal, |data|);
      if isDead || actual == 0 || sendCount >= IXEV_SEND_DEPTH {
        return None;
      }
      curBuf := None;
      ghost var before := send[..sendCount];
      send[sendCount] := Direct(data[..actual]);
      sendCount := sendCount + 1;
      assert send[..sendCount] == before + [Direct(data[..actual])];
      stream := stream + data[..actual];
      sendTotal := sendTotal + actual;
      return Some(actual);
    }

    /** ixev_handle_sendv_ret: find the first entry not wholly taken, then shift. */
    method HandleSendvRet(ret: int)
      requires Shaped() && Inv(Model()) && ret <= |Content(Model().send, bufs)|
      modifies this, send
      ensures Shaped() && Inv(Model()) && Model() == SendvRet(old(Model()), ret)
    {
      SendvRetKeeps(Model(), ret);
      handed := SendvRet(Model(), ret).handed;
      if ret < 0 {
        isDead := true;
        return;
      }
      DropTaken(ret);
    }

    /** Its loop, and the shift. */
    method DropTaken(ret: nat)
      requires Shaped()
      modifies this`sendCount, send
      ensures Shaped() && send[..sendCount] == Drop(old(send[..sendCount]), ret)
    {
      ghost var all := send[..sendCount];
      var i, left := 0, ret;
      assert all[0..] == all;
      while i < sendCount && left >= send[i].Len()
        invariant i <= sendCount && left >= 0 && Drop(all[i..], left) == Drop(all, ret)
      {
        assert all[i..][1..] == all[i + 1..];
        left := left - send[i].Len();
        i := i + 1;
      }
      if i < sendCount {
        assert all[i..][1..] == all[i + 1..];
        send[i] := Skip(send[i], left);
        assert send[i..sendCount] == [Skip(all[i], left)] + all[i + 1..];
      }
      ShiftSends(i);
    }

    /** ixev_shift_sends. */
    method ShiftSends(shift: nat)
      requires Shaped() && shift <= sendCount
      modifies this`sendCount, send
      ensures Shaped() && sendCount == old(sendCount) - shift && send[..sendCount] == old(send[shift..sendCount])
    {
      ghost var before := send[..];
      var n := sendCount - shift;
      sendCount := n;
      for i := 0 to n
        modifies send
        invariant forall k | 0 <= k < i :: send[k] == before[k + shift]
        invariant forall k | i <= k < send.Length :: send[k] == before[k]
      {
        send[i] := send[i + shift];
      }
    }

    /** ixev_add_sent_cb. */
    method AddSentCallback(cb: int)
      requires Shaped() && Inv(Model())
      modifies this`refs
      ensures Shaped() && Inv(Model()) && Model() == AddSentCb(old(Model()), cb)
    {
      AddSentCbKeeps(Model(), cb);
      refs := refs + [UserRef(cb, sendTotal)];
    }

    /** ixev_tcp_sent, up to its retry of pending data. */
    method HandleTcpSent(len: nat)
      requires Shaped() && Inv(Model()) && sentTotal + len <= |handed|
      modifies this
      ensures Shaped() && Inv(Model()) && Model() == TcpSent(old(Model()), len)
    {
      ghost var s := Model();
      TcpSentKeeps(s, len);
      sentTotal := sentTotal + len;
      var i := RunCallbacks();
      refs := refs[i..];
      if refs == [] {
        curBuf := None;
      }
    }

    /** The loop of ixev_tcp_sent. */
    method RunCallbacks() returns (i: nat)
      modifies this`fired
      ensures i == Ripe(refs, bufs, sentTotal) && fired == old(fired) + refs[..i]
    {
      i := 0;
      assert refs[0..] == refs;
      while i < |refs| && RefPos(refs[i]) <= sentTotal
        invariant i <= |refs| && i + Ripe(refs[i..], bufs, sentTotal) == Ripe(refs, bufs, sentTotal)
        invariant fired == old(fired) + refs[..i]
      {
        assert refs[i..][1..] == refs[i + 1..];
        assert refs[..i + 1] == refs[..i] + [refs[i]];
        fired := fired + [refs[i]];
        i := i + 1;
      }
    }

    function RefPos(r: Ref): nat
      reads this
    {
      Pos(r, bufs)
    }
  }
}
