/** The sending side of a TCP connection (dp/net/tcp_out.c and the acknowledgement part of tcp_receive in
    dp/net/tcp_in.c), with sequence numbers as unbounded integers (`TcpReceive.SeqCompareAgrees` says why
    that is the same).

    `SendInvariant` holds over every run: the two queues cut the unacknowledged part of the stream into
    consecutive segments, at most one of them waiting out of turn to be sent again, their bytes are those
    written, the queue length counts their buffers, and the free buffer space is what the unacknowledged
    bytes leave of it. `WriteAllOrNothing` is about tcp_write; `BufferOverrunExactly` and the lemmas named
    `...AfterRexmitExactly` say when what one would expect does not hold. */
module TcpSend {
  import opened Common
  import opened Words

  const TCP_SND_BUF: nat := 65536
  const TCP_MSS: nat := 1460
  const TCP_SND_QUEUELEN: nat := (4 * TCP_SND_BUF + (TCP_MSS - 1)) / TCP_MSS

  datatype Error = ErrOk | ErrMem | ErrConn

  /** struct tcp_seg: `clen` is the number of buffers it is made of. */
  datatype Seg = Seg(seqno: int, data: seq<byte>, fin: bool, clen: nat)
  {
    /** TCP_TCPLEN */
    function Len(): nat {
      |data| + if fin then 1 else 0
    }
    function End(): int {
      seqno + Len()
    }
  }

  /** The sending part of struct tcp_pcb after the handshake. `open` stands for the states in which data may
      be written, `finFlag` for TF_FIN, `noDelay` for TF_NODELAY or TF_INFR. The last three are what has
      happened: the bytes written, the sequence number of the first of them, and how many have been reported
      to the application as sent. */
  datatype Pcb = Pcb(unacked: seq<Seg>, unsent: seq<Seg>, lbb: int, buf: int, qlen: nat, nxt: int, lastack: int,
                     oversize: nat, mss: nat, wnd: nat, wndMax: nat, cwnd: nat, open: bool, memErr: bool,
                     finFlag: bool, noDelay: bool,
                     stream: seq<byte>, base: int, reported: int)

  /** The largest segment to be made. */
  function MssLocal(s: Pcb): nat {
    if s.mss < s.wndMax / 2 then s.mss else s.wndMax / 2
  }

  // ---------------------------------------------------------------------------------------------
  // tcp_write
  // ---------------------------------------------------------------------------------------------

  /** How tcp_write cuts data up: what goes into the oversized tail of the last unsent segment, what is
      chained to that segment, and the rest. */
  function Tail(s: Pcb, len: nat): nat {
    if s.unsent == [] then 0 else Min(s.oversize, len)
  }

  function Space(s: Pcb, len: nat): int {
    if s.unsent == [] then 0 else MssLocal(s) - |s.unsent[|s.unsent| - 1].data| - Tail(s, len)
  }

  function Chain(s: Pcb, len: nat): nat {
    if s.unsent != [] && Tail(s, len) < len && Space(s, len) > 0 && |s.unsent[|s.unsent| - 1].data| > 0
    then Min(Space(s, len), len - Tail(s, len)) else 0
  }

  /** Buffers and allocations of a new segment: header and data apart, or copied into one. */
  function SegBufs(copy: bool): nat {
    if copy then 1 else 2
  }

  function SegAllocs(copy: bool): nat {
    if copy then 2 else 3
  }

  /** New segments of at most `mss` bytes. */
  function Chunks(data: seq<byte>, seqno: int, mss: nat, clen: nat): seq<Seg>
    requires mss > 0
    decreases |data|
  {
    if data == [] then []
    else
      var n := Min(|data|, mss);
      [Seg(seqno, data[..n], false, clen)] + Chunks(data[n..], seqno + n, mss, clen)
  }

  /** The bytes from the start that go into the last unsent segment. */
  function Joined(s: Pcb, len: nat): nat {
    Tail(s, len) + Chain(s, len)
  }

  function NewSegs(s: Pcb, data: seq<byte>, copy: bool): seq<Seg>
    requires MssLocal(s) > 0 && Joined(s, |data|) <= |data|
  {
    var k := Joined(s, |data|);
    Chunks(data[k..], s.lbb + k, MssLocal(s), SegBufs(copy))
  }

  /** tcp_write_checks. */
  function WriteChecks(s: Pcb, len: nat): Error {
    if !s.open then ErrConn
    else if len == 0 then ErrOk
    else if len > s.buf || s.qlen >= TCP_SND_QUEUELEN then ErrMem
    else ErrOk
  }

  /** The write goes through: with `mem` allocations succeeding, there is memory and the queue does not get
      too long. Without a window from the peer no segment can be made. */
  ghost predicate WriteFits(s: Pcb, data: seq<byte>, copy: bool, mem: nat) {
    var len := |data|;
    var chained := if Chain(s, len) > 0 then 1 else 0;
    && chained <= mem
    && (Joined(s, len) < len ==>
          && MssLocal(s) > 0
          && s.qlen + chained + SegBufs(copy) * |NewSegs(s, data, copy)| <= TCP_SND_QUEUELEN
          && chained + SegAllocs(copy) * |NewSegs(s, data, copy)| <= mem)
  }

  /** The last unsent segment with its new bytes. */
  function Extended(s: Pcb, data: seq<byte>): seq<Seg>
    requires Joined(s, |data|) <= |data|
  {
    if s.unsent == [] then []
    else
      var last := s.unsent[|s.unsent| - 1];
      s.unsent[..|s.unsent| - 1] +
      [last.(data := last.data + data[..Joined(s, |data|)], clen := last.clen + if Chain(s, |data|) > 0 then 1 else 0)]
  }

  lemma JoinedFits(s: Pcb, len: nat)
    ensures Joined(s, len) <= len
  {
  }

  /** A write that goes through. `extra` is the unused space of the last buffer allocated. */
  function Written(s: Pcb, data: seq<byte>, copy: bool, extra: nat): Pcb
    requires Joined(s, |data|) < |data| ==> MssLocal(s) > 0
  {
    JoinedFits(s, |data|);
    var more := if Joined(s, |data|) < |data| then NewSegs(s, data, copy) else [];
    var chained := if Chain(s, |data|) > 0 then 1 else 0;
    s.(unsent := Extended(s, data) + more,
       lbb := s.lbb + |data|, buf := s.buf - |data|,
       qlen := s.qlen + chained + SegBufs(copy) * |more|,
       oversize := if !copy then (if s.unsent == [] then 0 else s.oversize - Tail(s, |data|))
                   else if chained == 1 || more != [] then extra
                   else if s.unsent == [] then 0 else s.oversize - Tail(s, |data|),
       stream := s.stream + data)
  }

  /** tcp_write. */
  ghost function Write(s: Pcb, data: seq<byte>, copy: bool, mem: nat, extra: nat): (Pcb, Error) {
    var err := WriteChecks(s, |data|);
    if err == ErrConn then (s, err)
    else if err == ErrMem then (s.(memErr := true), err)
    else if WriteFits(s, data, copy, mem) then (Written(s, data, copy, extra), ErrOk)
    else (s.(memErr := true), ErrMem)
  }

  // ---------------------------------------------------------------------------------------------
  // The other operations
  // ---------------------------------------------------------------------------------------------

  /** tcp_send_fin, then the states in which nothing may be written. */
  function SendFin(s: Pcb, mem: nat): (Pcb, Error) {
    if s.unsent != [] && !s.unsent[|s.unsent| - 1].fin then
      var k := |s.unsent| - 1;
      (s.(unsent := s.unsent[k := s.unsent[k].(fin := true)], finFlag := true, open := false), ErrOk)
    else EnqueueFin(s, mem)
  }

  /** tcp_enqueue_flags(TCP_FIN). */
  function EnqueueFin(s: Pcb, mem: nat): (Pcb, Error) {
    if s.qlen >= TCP_SND_QUEUELEN then (s.(memErr := true), ErrMem)
    else if s.buf == 0 then (s, ErrMem)
    else if mem < 2 then (s.(memErr := true), ErrMem)
    else (s.(unsent := s.unsent + [Seg(s.lbb, [], true, 1)], oversize := 0, lbb := s.lbb + 1, buf := s.buf - 1,
             finFlag := true, open := false, qlen := s.qlen + 1), ErrOk)
  }

  /** tcp_do_output_nagle. */
  predicate Nagle(s: Pcb) {
    || s.unacked == [] || s.noDelay
    || (s.unsent != [] && (|s.unsent| > 1 || |s.unsent[0].data| >= s.mss))
    || s.buf == 0 || s.qlen >= TCP_SND_QUEUELEN
  }

  /** The next segment can go out. */
  predicate CanSend(s: Pcb) {
    && s.unsent != []
    && s.unsent[0].seqno - s.lastack + |s.unsent[0].data| <= Min(s.wnd, s.cwnd)
    && (Nagle(s) || s.memErr || s.finFlag)
  }

  /** Into the unacknowledged queue, at its end or, for a retransmission, in order. */
  function Insert(q: seq<Seg>, seg: Seg): seq<Seg> {
    if q == [] then [seg]
    else if seg.seqno < q[|q| - 1].seqno then InsertSorted(q, seg)
    else q + [seg]
  }

  function InsertSorted(q: seq<Seg>, seg: Seg): seq<Seg> {
    if q == [] || q[0].seqno >= seg.seqno then [seg] + q else [q[0]] + InsertSorted(q[1..], seg)
  }

  /** One turn of the loop of tcp_output. */
  function SendOne(s: Pcb): Pcb
    requires s.unsent != []
  {
    var seg := s.unsent[0];
    s.(unsent := s.unsent[1..], nxt := if s.nxt < seg.End() then seg.End() else s.nxt,
       unacked := if seg.Len() > 0 then Insert(s.unacked, seg) else s.unacked)
  }

  function SendLoop(s: Pcb): Pcb
    decreases |s.unsent|
  {
    if CanSend(s) then SendLoop(SendOne(s)) else s
  }

  /** tcp_output outside of input processing, when data can go out or no acknowledgement is due. */
  function Output(s: Pcb): Pcb {
    var r := SendLoop(s);
    r.(oversize := if r.unsent == [] then 0 else r.oversize, memErr := false)
  }

  /** The window lets the first unsent segment out. */
  predicate FirstFits(s: Pcb) {
    s.unsent != [] && s.unsent[0].seqno - s.lastack + |s.unsent[0].data| <= Min(s.wnd, s.cwnd)
  }

  /** tcp_output; `ackNow` stands for TF_ACK_NOW. If there is no data for the acknowledgement to go with, it is
      sent alone and nothing else is done. */
  function OutputNow(s: Pcb, ackNow: bool): Pcb {
    if ackNow && !FirstFits(s) then s else Output(s)
  }

  /** tcp_rexmit_rto without its tcp_output. */
  function RexmitRto(s: Pcb): Pcb {
    s.(unacked := [], unsent := s.unacked + s.unsent)
  }

  /** tcp_rexmit. */
  function Rexmit(s: Pcb): Pcb {
    if s.unacked == [] then s
    else
      var q := InsertSorted(s.unsent, s.unacked[0]);
      s.(unacked := s.unacked[1..], unsent := q, oversize := if q[|q| - 1] == s.unacked[0] then 0 else s.oversize)
  }

  /** How many segments from the front an acknowledgement covers. */
  function Covered(q: seq<Seg>, ackno: int): (n: nat)
    ensures n <= |q|
    decreases |q|
  {
    if q == [] || q[0].End() > ackno then 0 else 1 + Covered(q[1..], ackno)
  }

  function Bufs(q: seq<Seg>): nat {
    if q == [] then 0 else q[0].clen + Bufs(q[1..])
  }

  function Fins(q: seq<Seg>): nat {
    if q == [] then 0 else (if q[0].fin then 1 else 0) + Fins(q[1..])
  }

  /** The window of the peer, updated or not. */
  function Window(s: Pcb, update: bool, wnd: nat): Pcb {
    var w := if update then wnd else s.wnd;
    s.(wnd := w, wndMax := if s.wndMax < w then w else s.wndMax)
  }

  /** k unacknowledged and j unsent segments with so many buffers and FINs leave the queues. */
  function Release(s: Pcb, acked: nat, k: nat, j: nat, bufs: nat, fins: nat): Pcb
    requires k <= |s.unacked| && j <= |s.unsent|
  {
    s.(unacked := s.unacked[k..], unsent := s.unsent[j..],
       qlen := if bufs <= s.qlen then s.qlen - bufs else 0,
       buf := s.buf + acked, lastack := s.lastack + acked,
       oversize := if j > 0 && j == |s.unsent| then 0 else s.oversize,
       reported := s.reported + if acked > fins then acked - fins else 0)
  }

  /** The acknowledgement part of tcp_receive. */
  function Ack(s: Pcb, ackno: int, update: bool, wnd: nat): Pcb {
    var s0 := Window(s, update, wnd);
    if ackno > s.nxt then s0
    else
      var k := if ackno > s.lastack then Covered(s.unacked, ackno) else 0;
      var j := Covered(s.unsent, ackno);
      Release(s0, if ackno > s.lastack then ackno - s.lastack else 0, k, j,
              Bufs(s.unacked[..k]) + Bufs(s.unsent[..j]), Fins(s.unacked[..k]) + Fins(s.unsent[..j]))
  }

  // ---------------------------------------------------------------------------------------------
  // The invariant
  // ---------------------------------------------------------------------------------------------

  /** The segments follow each other without gap or overlap. */
  predicate Tiles(q: seq<Seg>, from: int, to: int) {
    if q == [] then from == to
    else q[0].seqno == from && q[0].Len() > 0 && Tiles(q[1..], q[0].End(), to)
  }

  /** The bytes of a segment are those written at its place. */
  ghost predicate SegOk(seg: Seg, stream: seq<byte>, base: int) {
    && base <= seg.seqno && seg.seqno + |seg.data| <= base + |stream|
    && seg.data == stream[seg.seqno - base..seg.seqno - base + |seg.data|]
  }

  ghost predicate AllOk(q: seq<Seg>, stream: seq<byte>, base: int, mss: nat) {
    forall i | 0 <= i < |q| :: SegOk(q[i], stream, base) && |q[i].data| <= mss
  }

  /** A FIN, if there may be one, is in the last segment. */
  ghost predicate FinLast(q: seq<Seg>, fin: bool) {
    forall i | 0 <= i < |q| && q[i].fin :: i == |q| - 1 && fin
  }

  ghost predicate QueueOk(q: seq<Seg>, from: int, to: int, stream: seq<byte>, base: int, mss: nat, fin: bool) {
    Tiles(q, from, to) && AllOk(q, stream, base, mss) && FinLast(q, fin)
  }

  /** A queue starts with the segment that has the first unacknowledged byte. */
  predicate StartsWith(q: seq<Seg>, lastack: int) {
    q != [] && q[0].seqno <= lastack < q[0].End()
  }

  /** The sequence number after everything queued so far. */
  function To(s: Pcb): int {
    s.base + |s.stream| + if s.open then 0 else 1
  }

  /** Where the unsent segments begin, and where the unacknowledged ones do. */
  function Mid(s: Pcb): int {
    if s.unsent == [] then To(s) else s.unsent[0].seqno
  }

  function From(s: Pcb): int {
    if s.unacked == [] then Mid(s) else s.unacked[0].seqno
  }

  /** The FIN was added to a data segment, which does not count against the buffer. */
  predicate Piggybacked(s: Pcb) {
    !s.open && s.lbb == s.base + |s.stream|
  }

  /** The two queues together cut up the stream from the last acknowledgement on. */
  ghost predicate LineInv(s: Pcb) {
    && QueueOk(s.unacked, From(s), Mid(s), s.stream, s.base, MssLocal(s), !s.open && s.unsent == [])
    && QueueOk(s.unsent, Mid(s), To(s), s.stream, s.base, MssLocal(s), !s.open)
    && (if s.unacked != [] then StartsWith(s.unacked, s.lastack)
        else if s.unsent != [] then StartsWith(s.unsent, s.lastack) else s.lastack == To(s))
  }

  /** The counters. */
  ghost predicate CountInv(s: Pcb) {
    && s.qlen == Bufs(s.unacked) + Bufs(s.unsent)
    && 0 <= s.buf && s.buf + s.lbb - s.lastack == TCP_SND_BUF
    && (s.lbb == s.base + |s.stream| || (!s.open && s.lbb == To(s)))
    && s.base <= s.lastack <= s.nxt <= To(s)
    && (s.unacked != [] ==> Mid(s) <= s.nxt)
    && s.reported == Min(s.lastack - s.base, |s.stream|)
  }

  /** The unused space behind the last unsent segment. */
  ghost predicate TailInv(s: Pcb) {
    if s.unsent == [] then s.oversize == 0
    else s.open ==> |s.unsent[|s.unsent| - 1].data| + s.oversize <= MssLocal(s)
  }

  ghost predicate Inv(s: Pcb) {
    LineInv(s) && CountInv(s) && TailInv(s)
  }

  // ---------------------------------------------------------------------------------------------
  // Queues
  // ---------------------------------------------------------------------------------------------

  lemma {:induction false} TilesAppend(a: seq<Seg>, b: seq<Seg>, from: int, mid: int, to: int, ab: seq<Seg>)
    requires ab == a + b && Tiles(a, from, mid) && Tiles(b, mid, to)
    ensures Tiles(ab, from, to)
    decreases |a|
  {
    if a == [] {
      assert ab == b;
    } else {
      assert ab[1..] == a[1..] + b;
      TilesAppend(a[1..], b, a[0].End(), mid, to, ab[1..]);
    }
  }

  lemma {:induction false} TilesGrow(q: seq<Seg>, from: int, to: int)
    requires Tiles(q, from, to)
    ensures from <= to && (q != [] ==> from < to)
    decreases |q|
  {
    if q != [] {
      TilesGrow(q[1..], q[0].End(), to);
    }
  }

  /** Where segment i lies. */
  lemma {:induction false} TilesAt(q: seq<Seg>, from: int, to: int, i: nat)
    requires Tiles(q, from, to) && i < |q|
    ensures from <= q[i].seqno < q[i].End() <= to
    ensures i == |q| - 1 <==> q[i].End() == to
    decreases i
  {
    var rest := q[1..];
    TilesGrow(rest, q[0].End(), to);
    if i > 0 {
      TilesAt(rest, q[0].End(), to, i - 1);
    }
  }

  /** The last segment replaced by a longer one at the same place. */
  lemma {:induction false} TilesLast(q: seq<Seg>, from: int, to: int, last: Seg, r: seq<Seg>)
    requires Tiles(q, from, to) && q != [] && r == q[|q| - 1 := last]
    requires last.seqno == q[|q| - 1].seqno && last.Len() >= q[|q| - 1].Len()
    ensures Tiles(r, from, to + last.Len() - q[|q| - 1].Len())
    decreases |q|
  {
    if |q| > 1 {
      assert r[1..] == q[1..][|q| - 2 := last];
      TilesLast(q[1..], q[0].End(), to, last, r[1..]);
    } else {
      assert q[1..] == [] && r[1..] == [];
    }
  }

  lemma {:induction false} BufsAppend(a: seq<Seg>, b: seq<Seg>, ab: seq<Seg>)
    requires ab == a + b
    ensures Bufs(ab) == Bufs(a) + Bufs(b)
    decreases |a|
  {
    if a == [] {
      assert ab == b;
    } else {
      assert ab[1..] == a[1..] + b;
      BufsAppend(a[1..], b, ab[1..]);
    }
  }

  lemma {:induction false} BufsUpdate(q: seq<Seg>, i: nat, seg: Seg, r: seq<Seg>)
    requires i < |q| && r == q[i := seg]
    ensures Bufs(r) + q[i].clen == Bufs(q) + seg.clen
    decreases i
  {
    if i == 0 {
      assert r[1..] == q[1..];
    } else {
      assert r[1..] == q[1..][i - 1 := seg];
      BufsUpdate(q[1..], i - 1, seg, r[1..]);
    }
  }

  lemma {:induction false} FinsAppend(a: seq<Seg>, b: seq<Seg>, ab: seq<Seg>)
    requires ab == a + b
    ensures Fins(ab) == Fins(a) + Fins(b)
    decreases |a|
  {
    if a == [] {
      assert ab == b;
    } else {
      assert ab[1..] == a[1..] + b;
      FinsAppend(a[1..], b, ab[1..]);
    }
  }

  lemma QueueAppend(a: seq<Seg>, b: seq<Seg>, from: int, mid: int, to: int, stream: seq<byte>, base: int, mss: nat,
                    fin: bool, ab: seq<Seg>)
    requires QueueOk(a, from, mid, stream, base, mss, fin && b == []) && QueueOk(b, mid, to, stream, base, mss, fin)
    requires ab == a + b
    ensures QueueOk(ab, from, to, stream, base, mss, fin)
  {
    TilesAppend(a, b, from, mid, to, ab);
    forall i | 0 <= i < |ab|
      ensures SegOk(ab[i], stream, base) && |ab[i].data| <= mss && (ab[i].fin ==> i == |ab| - 1 && fin)
    {
      if i < |a| {
        assert ab[i] == a[i];
      } else {
        assert ab[i] == b[i - |a|];
      }
    }
  }

  lemma QueueRest(q: seq<Seg>, from: int, to: int, stream: seq<byte>, base: int, mss: nat, fin: bool, n: nat, mid: int)
    requires QueueOk(q, from, to, stream, base, mss, fin) && n <= |q| && Tiles(q[n..], mid, to)
    ensures QueueOk(q[n..], mid, to, stream, base, mss, fin)
  {
    forall i | 0 <= i < |q[n..]|
      ensures SegOk(q[n..][i], stream, base) && |q[n..][i].data| <= mss && (q[n..][i].fin ==> i == |q[n..]| - 1 && fin)
    {
      assert q[n..][i] == q[n + i];
    }
  }

  lemma SegLater(seg: Seg, stream: seq<byte>, base: int, more: seq<byte>)
    requires SegOk(seg, stream, base)
    ensures SegOk(seg, stream + more, base)
  {
    assert (stream + more)[seg.seqno - base..seg.seqno - base + |seg.data|] ==
           stream[seg.seqno - base..seg.seqno - base + |seg.data|];
  }

  lemma QueueLater(q: seq<Seg>, from: int, to: int, stream: seq<byte>, base: int, mss: nat, fin: bool, data: seq<byte>)
    requires QueueOk(q, from, to, stream, base, mss, fin)
    ensures QueueOk(q, from, to, stream + data, base, mss, fin)
  {
    forall i | 0 <= i < |q|
      ensures SegOk(q[i], stream + data, base)
    {
      SegLater(q[i], stream, base, data);
    }
  }

  lemma QueueWider(q: seq<Seg>, from: int, to: int, stream: seq<byte>, base: int, mss: nat, fin: bool, more: nat)
    requires QueueOk(q, from, to, stream, base, mss, fin) && mss <= more
    ensures QueueOk(q, from, to, stream, base, more, fin)
  {
  }

  // ---------------------------------------------------------------------------------------------
  // Writing
  // ---------------------------------------------------------------------------------------------

  lemma {:induction false} ChunksTile(data: seq<byte>, seqno: int, mss: nat, clen: nat)
    requires mss > 0
    ensures Tiles(Chunks(data, seqno, mss, clen), seqno, seqno + |data|)
    ensures Bufs(Chunks(data, seqno, mss, clen)) == clen * |Chunks(data, seqno, mss, clen)|
    ensures Chunks(data, seqno, mss, clen) == [] <==> data == []
    decreases |data|
  {
    if data != [] {
      var n := Min(|data|, mss);
      var q, rest := Chunks(data, seqno, mss, clen), Chunks(data[n..], seqno + n, mss, clen);
      assert q[1..] == rest;
      ChunksTile(data[n..], seqno + n, mss, clen);
      assert clen * |q| == clen + clen * |rest|;
    }
  }

  lemma {:induction false} ChunksOk(data: seq<byte>, seqno: int, mss: nat, clen: nat, stream: seq<byte>, base: int,
                                    i: nat)
    requires mss > 0 && base <= seqno && seqno + |data| <= base + |stream|
    requires data == stream[seqno - base..seqno - base + |data|] && i < |Chunks(data, seqno, mss, clen)|
    ensures var seg := Chunks(data, seqno, mss, clen)[i];
      SegOk(seg, stream, base) && |seg.data| <= mss && !seg.fin
    decreases |data|
  {
    var n := Min(|data|, mss);
    if i == 0 {
      assert data[..n] == stream[seqno - base..seqno - base + n];
    } else {
      assert data[n..] == stream[seqno + n - base..seqno - base + |data|];
      ChunksOk(data[n..], seqno + n, mss, clen, stream, base, i - 1);
    }
  }

  lemma SliceOfJoin(a: seq<byte>, b: seq<byte>, k: nat, ab: seq<byte>, rest: seq<byte>)
    requires k <= |b| && ab == a + b && rest == b[k..]
    ensures |rest| == |b| - k && ab[|a| + k..|a| + |b|] == rest
  {
  }

  lemma {:induction false} ChunksBound(data: seq<byte>, seqno: int, mss: nat, clen: nat, i: nat)
    requires mss > 0 && i < |Chunks(data, seqno, mss, clen)|
    ensures 0 < |Chunks(data, seqno, mss, clen)[i].data| <= mss
    decreases |data|
  {
    var n := Min(|data|, mss);
    if i > 0 {
      ChunksBound(data[n..], seqno + n, mss, clen, i - 1);
    }
  }

  /** New segments, if there is anything left, for the end of the stream. */
  lemma MoreOk(rest: seq<byte>, at: int, to: int, mss: nat, bufs: nat, stream: seq<byte>, base: int, q: seq<Seg>)
    requires base <= at && at + |rest| == to == base + |stream| && rest == stream[at - base..at - base + |rest|]
    requires if rest == [] then q == [] else mss > 0 && q == Chunks(rest, at, mss, bufs)
    ensures QueueOk(q, at, to, stream, base, mss, false) && Bufs(q) == bufs * |q|
  {
    if rest != [] {
      ChunksTile(rest, at, mss, bufs);
      ChunksAllOk(rest, at, mss, bufs, stream, base, q);
    }
  }

  lemma ChunksAllOk(data: seq<byte>, seqno: int, mss: nat, clen: nat, stream: seq<byte>, base: int, q: seq<Seg>)
    requires mss > 0 && base <= seqno && seqno + |data| <= base + |stream|
    requires data == stream[seqno - base..seqno - base + |data|] && q == Chunks(data, seqno, mss, clen)
    ensures AllOk(q, stream, base, mss) && FinLast(q, false)
  {
    forall i | 0 <= i < |q|
      ensures SegOk(q[i], stream, base) && |q[i].data| <= mss && !q[i].fin
    {
      ChunksOk(data, seqno, mss, clen, stream, base, i);
    }
  }

  lemma SegGrows(seg: Seg, stream: seq<byte>, base: int, data: seq<byte>, n: nat)
    requires SegOk(seg, stream, base) && seg.seqno + |seg.data| == base + |stream| && n <= |data|
    ensures SegOk(seg.(data := seg.data + data[..n]), stream + data, base)
  {
    var at := seg.seqno - base;
    assert (stream + data)[at..at + |seg.data| + n] == stream[at..] + data[..n];
  }

  /** The last segment of a queue gets the first n bytes. */
  lemma QueueExtended(q: seq<Seg>, from: int, stream: seq<byte>, base: int, mss: nat, data: seq<byte>, n: nat, c: nat,
                      last: Seg, r: seq<Seg>)
    requires q != [] && QueueOk(q, from, base + |stream|, stream, base, mss, false)
    requires n <= |data| && |q[|q| - 1].data| + n <= mss
    requires last == q[|q| - 1].(data := q[|q| - 1].data + data[..n], clen := q[|q| - 1].clen + c)
    requires r == q[|q| - 1 := last]
    ensures QueueOk(r, from, base + |stream| + n, stream + data, base, mss, false) && Bufs(r) == Bufs(q) + c
  {
    assert !q[|q| - 1].fin;
    TilesAt(q, from, base + |stream|, |q| - 1);
    TilesLast(q, from, base + |stream|, last, r);
    BufsUpdate(q, |q| - 1, last, r);
    forall i | 0 <= i < |r|
      ensures SegOk(r[i], stream + data, base) && |r[i].data| <= mss && !r[i].fin
    {
      assert SegOk(q[i], stream, base);
      if i == |q| - 1 {
        SegGrows(q[i], stream, base, data, n);
      } else {
        SegLater(q[i], stream, base, data);
      }
    }
  }

  /** The segments made for the rest of the data. */
  function More(s: Pcb, data: seq<byte>, copy: bool): seq<Seg>
    requires Joined(s, |data|) <= |data| && (Joined(s, |data|) < |data| ==> MssLocal(s) > 0)
  {
    if Joined(s, |data|) < |data| then NewSegs(s, data, copy) else []
  }

  /** How tcp_write extends the last unsent segment: not at all, or by bytes that fit. */
  ghost predicate Extends(q: seq<Seg>, data: seq<byte>, k: nat, c: nat, mss: nat, r: seq<Seg>) {
    k <= |data| &&
    if q == [] then k == 0 && c == 0 && r == []
    else
      && |q[|q| - 1].data| + k <= mss
      && r == q[|q| - 1 := q[|q| - 1].(data := q[|q| - 1].data + data[..k], clen := q[|q| - 1].clen + c)]
  }

  lemma ExtendsLast(s: Pcb, data: seq<byte>, k: nat, c: nat, r: seq<Seg>)
    requires TailInv(s) && s.open && k == Joined(s, |data|) <= |data| && c == (if Chain(s, |data|) > 0 then 1 else 0)
    requires r == Extended(s, data)
    ensures Extends(s.unsent, data, k, c, MssLocal(s), r)
  {
  }

  lemma ExtendedOk(q: seq<Seg>, from: int, stream: seq<byte>, base: int, mss: nat, data: seq<byte>, k: nat, c: nat,
                   r: seq<Seg>)
    requires QueueOk(q, from, base + |stream|, stream, base, mss, false) && Extends(q, data, k, c, mss, r)
    ensures QueueOk(r, from, base + |stream| + k, stream + data, base, mss, false) && Bufs(r) == Bufs(q) + c
    ensures q != [] ==> r != [] && r[0].End() >= q[0].End()
  {
    if q != [] {
      QueueExtended(q, from, stream, base, mss, data, k, c, r[|q| - 1], r);
    }
  }

  /** The unsent queue after a write. */
  lemma UnsentWritten(q: seq<Seg>, from: int, stream: seq<byte>, base: int, mss: nat, data: seq<byte>, k: nat, c: nat,
                      bufs: nat, a: seq<Seg>, b: seq<Seg>, ab: seq<Seg>)
    requires QueueOk(q, from, base + |stream|, stream, base, mss, false) && Extends(q, data, k, c, mss, a)
    requires ab == a + b
    requires if k < |data| then mss > 0 && b == Chunks(data[k..], base + |stream| + k, mss, bufs) else b == []
    ensures QueueOk(ab, from, base + |stream| + |data|, stream + data, base, mss, false)
    ensures Bufs(ab) == Bufs(q) + c + bufs * |b|
    ensures q != [] ==> ab != [] && ab[0].End() >= q[0].End()
  {
    var at, to := base + |stream| + k, base + |stream| + |data|;
    ExtendedOk(q, from, stream, base, mss, data, k, c, a);
    MoreWritten(stream, data, k, data[k..], at, to, base, mss, bufs, stream + data, b);
    AppendMore(q, a, b, from, at, to, stream + data, base, mss, ab);
  }

  lemma MoreWritten(before: seq<byte>, data: seq<byte>, k: nat, rest: seq<byte>, at: int, to: int, base: int, mss: nat,
                    bufs: nat, stream: seq<byte>, q: seq<Seg>)
    requires k <= |data| && rest == data[k..] && stream == before + data
    requires at == base + |before| + k && to == base + |before| + |data|
    requires if rest == [] then q == [] else mss > 0 && q == Chunks(rest, at, mss, bufs)
    ensures QueueOk(q, at, to, stream, base, mss, false) && Bufs(q) == bufs * |q|
  {
    SliceOfJoin(before, data, k, stream, rest);
    MoreOk(rest, at, to, mss, bufs, stream, base, q);
  }

  lemma AppendMore(q: seq<Seg>, a: seq<Seg>, b: seq<Seg>, from: int, at: int, to: int, stream: seq<byte>, base: int,
                   mss: nat, ab: seq<Seg>)
    requires QueueOk(a, from, at, stream, base, mss, false) && QueueOk(b, at, to, stream, base, mss, false)
    requires ab == a + b
    requires q != [] ==> a != [] && a[0].End() >= q[0].End()
    ensures QueueOk(ab, from, to, stream, base, mss, false) && Bufs(ab) == Bufs(a) + Bufs(b)
    ensures q != [] ==> ab != [] && ab[0].End() >= q[0].End()
  {
    QueueAppend(a, b, from, at, to, stream, base, mss, false, ab);
    BufsAppend(a, b, ab);
    if q != [] {
      assert ab[0] == a[0];
    }
  }

  /** Where the unsent queue begins after a write, and what it begins with. */
  lemma WrittenStart(s: Pcb, data: seq<byte>, ab: seq<Seg>, to: int)
    requires LineInv(s) && s.open && Tiles(ab, Mid(s), to) && to == To(s) + |data|
    requires s.unsent != [] ==> ab != [] && ab[0].End() >= s.unsent[0].End()
    ensures ab == [] ==> to == Mid(s)
    ensures ab != [] ==> ab[0].seqno == Mid(s)
    ensures s.unacked == [] && ab != [] ==> StartsWith(ab, s.lastack)
    ensures s.unacked == [] && ab == [] ==> s.lastack == to
  {
  }

  lemma WrittenLine(s: Pcb, data: seq<byte>, copy: bool, extra: nat)
    requires LineInv(s) && CountInv(s) && TailInv(s) && s.open && (Joined(s, |data|) < |data| ==> MssLocal(s) > 0)
    ensures LineInv(Written(s, data, copy, extra))
    ensures Bufs(Written(s, data, copy, extra).unsent) + s.qlen == Bufs(s.unsent) + Written(s, data, copy, extra).qlen
  {
    JoinedFits(s, |data|);
    var k, c := Joined(s, |data|), if Chain(s, |data|) > 0 then 1 else 0;
    var r := Written(s, data, copy, extra);
    WrittenUnsent(s, data, copy, k, c, r.unsent);
    WrittenAssembled(s, data, r);
  }

  lemma WrittenUnsent(s: Pcb, data: seq<byte>, copy: bool, k: nat, c: nat, q: seq<Seg>)
    requires LineInv(s) && TailInv(s) && s.open && s.lbb == s.base + |s.stream|
    requires k == Joined(s, |data|) <= |data| && c == (if Chain(s, |data|) > 0 then 1 else 0)
    requires (k < |data| ==> MssLocal(s) > 0) && q == Extended(s, data) + More(s, data, copy)
    ensures QueueOk(q, Mid(s), To(s) + |data|, s.stream + data, s.base, MssLocal(s), false)
    ensures Bufs(q) == Bufs(s.unsent) + c + SegBufs(copy) * |More(s, data, copy)|
    ensures s.unsent != [] ==> q != [] && q[0].End() >= s.unsent[0].End()
  {
    var a, b := Extended(s, data), More(s, data, copy);
    ExtendsLast(s, data, k, c, a);
    MoreIsChunks(s, data, copy, k, b);
    UnsentWritten(s.unsent, Mid(s), s.stream, s.base, MssLocal(s), data, k, c, SegBufs(copy), a, b, q);
  }

  lemma MoreIsChunks(s: Pcb, data: seq<byte>, copy: bool, k: nat, b: seq<Seg>)
    requires k == Joined(s, |data|) <= |data| && (k < |data| ==> MssLocal(s) > 0) && b == More(s, data, copy)
    ensures if k < |data| then b == Chunks(data[k..], s.lbb + k, MssLocal(s), SegBufs(copy)) else b == []
  {
  }

  lemma WrittenAssembled(s: Pcb, data: seq<byte>, r: Pcb)
    requires LineInv(s) && s.open && r.open && r.unacked == s.unacked && r.lastack == s.lastack
    requires r.stream == s.stream + data && r.base == s.base && r.mss == s.mss && r.wndMax == s.wndMax
    requires QueueOk(r.unsent, Mid(s), To(s) + |data|, s.stream + data, s.base, MssLocal(s), false)
    requires s.unsent != [] ==> r.unsent != [] && r.unsent[0].End() >= s.unsent[0].End()
    ensures LineInv(r)
  {
    WrittenStart(s, data, r.unsent, To(r));
    QueueLater(s.unacked, From(s), Mid(s), s.stream, s.base, MssLocal(s), false, data);
  }

  /** The space left in the last buffer is space within a segment. */
  ghost predicate ExtraOk(s: Pcb, data: seq<byte>, copy: bool, extra: nat)
    requires Joined(s, |data|) < |data| ==> MssLocal(s) > 0
  {
    var q := Written(s, data, copy, extra).unsent;
    copy && q != [] ==> |q[|q| - 1].data| + extra <= MssLocal(s)
  }

  lemma WrittenTail(s: Pcb, data: seq<byte>, copy: bool, extra: nat)
    requires s.lbb == s.base + |s.stream| && TailInv(s) && s.open && (Joined(s, |data|) < |data| ==> MssLocal(s) > 0)
    requires ExtraOk(s, data, copy, extra)
    ensures TailInv(Written(s, data, copy, extra))
  {
    JoinedFits(s, |data|);
    MoreEmpty(s, data, copy);
    var r, a, b := Written(s, data, copy, extra), Extended(s, data), More(s, data, copy);
    if b != [] {
      LastOfMore(s, data, copy, b);
      assert r.unsent[|r.unsent| - 1] == b[|b| - 1];
    } else {
      assert r.unsent == a;
    }
  }

  lemma LastOfMore(s: Pcb, data: seq<byte>, copy: bool, b: seq<Seg>)
    requires s.lbb == s.base + |s.stream| && Joined(s, |data|) <= |data|
    requires (Joined(s, |data|) < |data| ==> MssLocal(s) > 0) && b == More(s, data, copy) != []
    ensures |b[|b| - 1].data| <= MssLocal(s)
  {
    ChunksBound(data[Joined(s, |data|)..], s.lbb + Joined(s, |data|), MssLocal(s), SegBufs(copy), |b| - 1);
  }

  lemma MoreEmpty(s: Pcb, data: seq<byte>, copy: bool)
    requires Joined(s, |data|) <= |data| && (Joined(s, |data|) < |data| ==> MssLocal(s) > 0)
    ensures More(s, data, copy) == [] <==> Joined(s, |data|) == |data|
  {
    var k := Joined(s, |data|);
    if k < |data| {
      ChunksTile(data[k..], s.lbb + k, MssLocal(s), SegBufs(copy));
    }
  }

  lemma WrittenKeeps(s: Pcb, data: seq<byte>, copy: bool, extra: nat)
    requires Inv(s) && s.open && |data| <= s.buf && (Joined(s, |data|) < |data| ==> MssLocal(s) > 0)
    requires ExtraOk(s, data, copy, extra)
    ensures Inv(Written(s, data, copy, extra))
  {
    WrittenLine(s, data, copy, extra);
    WrittenTail(s, data, copy, extra);
    WrittenMid(s, data, copy, extra);
  }

  lemma WrittenMid(s: Pcb, data: seq<byte>, copy: bool, extra: nat)
    requires Joined(s, |data|) < |data| ==> MssLocal(s) > 0
    requires LineInv(s) && LineInv(Written(s, data, copy, extra))
    ensures s.unacked != [] ==> Mid(Written(s, data, copy, extra)) == Mid(s)
  {
    if s.unacked != [] {
      SameEnd(s.unacked, From(s), Mid(s), Mid(Written(s, data, copy, extra)));
    }
  }

  lemma SameEnd(q: seq<Seg>, from: int, to: int, other: int)
    requires q != [] && Tiles(q, from, to) && Tiles(q, from, other)
    ensures to == other
  {
    TilesAt(q, from, to, |q| - 1);
    TilesAt(q, from, other, |q| - 1);
  }

  /** The bytes of a queue, one segment after the other. */
  function Payload(q: seq<Seg>): seq<byte> {
    if q == [] then [] else q[0].data + Payload(q[1..])
  }

  lemma {:induction false} PayloadAppend(a: seq<Seg>, b: seq<Seg>, ab: seq<Seg>)
    requires ab == a + b
    ensures Payload(ab) == Payload(a) + Payload(b)
    decreases |a|
  {
    if a == [] {
      assert ab == b;
    } else {
      assert ab[1..] == a[1..] + b;
      PayloadAppend(a[1..], b, ab[1..]);
    }
  }

  lemma {:induction false} ChunksPayload(data: seq<byte>, seqno: int, mss: nat, clen: nat)
    requires mss > 0
    ensures Payload(Chunks(data, seqno, mss, clen)) == data
    ensures |Chunks(data, seqno, mss, clen)| == CeilDiv(|data|, mss)
    decreases |data|
  {
    if data != [] {
      var n := Min(|data|, mss);
      var q, rest := Chunks(data, seqno, mss, clen), data[n..];
      assert q[1..] == Chunks(rest, seqno + n, mss, clen);
      ChunksPayload(rest, seqno + n, mss, clen);
      assert data == data[..n] + rest;
      CeilDivStep(|data|, mss);
    } else {
      CeilDivStep(0, mss);
    }
  }

  /** How many segments of m bytes it takes for n. */
  function CeilDiv(n: nat, m: nat): nat
    requires m > 0
  {
    if n == 0 then 0 else (n - 1) / m + 1
  }

  lemma CeilDivStep(n: nat, m: nat)
    requires m > 0
    ensures if n == 0 then CeilDiv(n, m) == 0 else CeilDiv(n, m) == 1 + CeilDiv(n - Min(n, m), m)
  {
    if n > m {
      AddUnit(n - 1 - m, m);
    }
  }

  lemma AddUnit(x: nat, m: nat)
    requires m > 0
    ensures (x + m) / m == x / m + 1
  {
    assert x + m == (x / m + 1) * m + x % m;
    QuotientOf(x / m + 1, m, x % m);
  }

  lemma PayloadLast(front: seq<Seg>, seg: Seg, q: seq<Seg>)
    requires q == front + [seg]
    ensures Payload(q) == Payload(front) + seg.data
  {
    PayloadAppend(front, [seg], q);
    assert [seg][1..] == [];
    assert Payload([seg]) == seg.data + [];
  }

  lemma ExtendedPayload(q: seq<Seg>, data: seq<byte>, k: nat, c: nat, mss: nat, r: seq<Seg>)
    requires Extends(q, data, k, c, mss, r)
    ensures Payload(r) == Payload(q) + data[..k]
  {
    if q == [] {
      assert data[..k] == [];
    } else {
      var front, last, grown := q[..|q| - 1], q[|q| - 1], r[|q| - 1];
      PayloadLast(front, last, q);
      PayloadLast(front, grown, r);
      Regroup(Payload(front), last.data, data[..k]);
    }
  }

  /** The room in the last unsent segment: what a write puts there, filling its buffer first. */
  function Room(s: Pcb): int {
    if s.unsent == [] then 0 else MssLocal(s) - |s.unsent[|s.unsent| - 1].data|
  }

  lemma JoinedIs(s: Pcb, len: nat)
    requires LineInv(s) && TailInv(s) && s.open
    ensures 0 <= Room(s) && Joined(s, len) == Min(len, Room(s))
    ensures Chain(s, len) > 0 <==> s.oversize < Min(len, Room(s))
  {
    if s.unsent != [] {
      var last := s.unsent[|s.unsent| - 1];
      assert SegOk(last, s.stream, s.base) && |last.data| <= MssLocal(s) && !last.fin;
      TilesAt(s.unsent, Mid(s), To(s), |s.unsent| - 1);
    }
  }

  /** What a write of len bytes takes: it fills up the last unsent segment, chaining a buffer to it unless the
      bytes fit behind those there, and cuts the rest into full segments. It is too much for the buffer, for
      the queue, for the memory left, or for a peer that has never opened its window. */
  predicate TooMuch(s: Pcb, len: nat, copy: bool, mem: nat) {
    var joined := Min(len, Room(s));
    var chained := if s.oversize < joined then 1 else 0;
    || len > s.buf || s.qlen >= TCP_SND_QUEUELEN || chained > mem
    || (joined < len &&
        (MssLocal(s) == 0 ||
         var segs := CeilDiv(len - joined, MssLocal(s));
         s.qlen + chained + SegBufs(copy) * segs > TCP_SND_QUEUELEN || chained + SegAllocs(copy) * segs > mem))
  }

  lemma FitsExactly(s: Pcb, data: seq<byte>, copy: bool, mem: nat)
    requires LineInv(s) && TailInv(s) && s.open && |data| <= s.buf && s.qlen < TCP_SND_QUEUELEN
    ensures WriteFits(s, data, copy, mem) <==> !TooMuch(s, |data|, copy, mem)
  {
    JoinedIs(s, |data|);
    FitsBySize(s, data, copy, mem);
  }

  lemma FitsBySize(s: Pcb, data: seq<byte>, copy: bool, mem: nat)
    requires |data| <= s.buf && s.qlen < TCP_SND_QUEUELEN && 0 <= Room(s)
    requires Joined(s, |data|) == Min(|data|, Room(s)) && (Chain(s, |data|) > 0 <==> s.oversize < Min(|data|, Room(s)))
    ensures WriteFits(s, data, copy, mem) <==> !TooMuch(s, |data|, copy, mem)
  {
    var k := Joined(s, |data|);
    if k < |data| && MssLocal(s) > 0 {
      ChunksPayload(data[k..], s.lbb + k, MssLocal(s), SegBufs(copy));
      assert |NewSegs(s, data, copy)| == CeilDiv(|data| - k, MssLocal(s));
    }
  }

  /** What becomes of the unsent queue when `data` is written: its segments but the last stay, the last may
      get more data, the new ones come behind; together they have the old bytes and then the data, no
      segment more than `mss`. */
  ghost predicate Appended(q: seq<Seg>, data: seq<byte>, mss: nat, lbb: int, r: seq<Seg>) {
    && |q| <= |r| && Payload(r) == Payload(q) + data
    && (forall i | 0 <= i < |q| - 1 :: r[i] == q[i])
    && (q != [] ==> r[|q| - 1].seqno == q[|q| - 1].seqno && q[|q| - 1].data <= r[|q| - 1].data && !r[|q| - 1].fin)
    && (forall i | 0 <= i < |r| :: |r[i].data| <= mss)
    && (forall i | |q| <= i < |r| :: lbb <= r[i].seqno && r[i].data != [] && !r[i].fin)
  }

  lemma {:induction false} ChunksNew(data: seq<byte>, seqno: int, mss: nat, clen: nat, i: nat)
    requires mss > 0 && i < |Chunks(data, seqno, mss, clen)|
    ensures var seg := Chunks(data, seqno, mss, clen)[i]; seqno <= seg.seqno && seg.data != [] && !seg.fin
    decreases |data|
  {
    var n := Min(|data|, mss);
    if i > 0 {
      ChunksNew(data[n..], seqno + n, mss, clen, i - 1);
    }
  }

  lemma PayloadWritten(q: seq<Seg>, data: seq<byte>, k: nat, c: nat, mss: nat, a: seq<Seg>, b: seq<Seg>, ab: seq<Seg>)
    requires Extends(q, data, k, c, mss, a) && ab == a + b && Payload(b) == data[k..]
    ensures Payload(ab) == Payload(q) + data
  {
    ExtendedPayload(q, data, k, c, mss, a);
    PayloadAppend(a, b, ab);
    Regroup(Payload(q), data[..k], data[k..]);
    assert data[..k] + data[k..] == data;
  }

  lemma NewSegments(rest: seq<byte>, at: int, mss: nat, bufs: nat, b: seq<Seg>)
    requires if rest != [] then mss > 0 && b == Chunks(rest, at, mss, bufs) else b == []
    ensures Payload(b) == rest && forall i | 0 <= i < |b| :: at <= b[i].seqno && b[i].data != [] && !b[i].fin
  {
    if rest != [] {
      ChunksPayload(rest, at, mss, bufs);
      forall i | 0 <= i < |b|
        ensures at <= b[i].seqno && b[i].data != [] && !b[i].fin
      {
        ChunksNew(rest, at, mss, bufs, i);
      }
    }
  }

  lemma QueueAppended(q: seq<Seg>, data: seq<byte>, k: nat, c: nat, mss: nat, lbb: int, a: seq<Seg>, b: seq<Seg>,
                      ab: seq<Seg>)
    requires Extends(q, data, k, c, mss, a) && ab == a + b && FinLast(q, false) && Payload(b) == data[k..]
    requires forall i | 0 <= i < |b| :: lbb <= b[i].seqno && b[i].data != [] && !b[i].fin
    requires forall i | 0 <= i < |ab| :: |ab[i].data| <= mss
    ensures Appended(q, data, mss, lbb, ab)
  {
    PayloadWritten(q, data, k, c, mss, a, b, ab);
    assert |a| == |q|;
    if q != [] {
      assert !q[|q| - 1].fin && ab[|q| - 1] == a[|q| - 1];
    }
  }

  lemma WrittenAppended(s: Pcb, data: seq<byte>, copy: bool, extra: nat)
    requires LineInv(s) && CountInv(s) && TailInv(s) && s.open && (Joined(s, |data|) < |data| ==> MssLocal(s) > 0)
    ensures var r := Written(s, data, copy, extra);
      && Appended(s.unsent, data, MssLocal(s), s.lbb, r.unsent) && Tiles(r.unsent, Mid(s), r.lbb)
      && r.qlen == Bufs(r.unacked) + Bufs(r.unsent)
  {
    JoinedFits(s, |data|);
    var k, c := Joined(s, |data|), if Chain(s, |data|) > 0 then 1 else 0;
    var q := Extended(s, data) + More(s, data, copy);
    WrittenUnsent(s, data, copy, k, c, q);
    UnsentAppended(s, data, copy, k, c, q);
  }

  lemma UnsentAppended(s: Pcb, data: seq<byte>, copy: bool, k: nat, c: nat, q: seq<Seg>)
    requires TailInv(s) && s.open && FinLast(s.unsent, false) && AllOk(q, s.stream + data, s.base, MssLocal(s))
    requires k == Joined(s, |data|) <= |data| && c == (if Chain(s, |data|) > 0 then 1 else 0)
    requires (k < |data| ==> MssLocal(s) > 0) && q == Extended(s, data) + More(s, data, copy)
    ensures Appended(s.unsent, data, MssLocal(s), s.lbb, q)
  {
    var a, b := Extended(s, data), More(s, data, copy);
    ExtendsLast(s, data, k, c, a);
    NewSegments(data[k..], s.lbb + k, MssLocal(s), SegBufs(copy), b);
    QueueAppended(s.unsent, data, k, c, MssLocal(s), s.lbb, a, b, q);
  }

  /** tcp_write is all or nothing. With success exactly the data is behind the bytes of the unsent queue, in
      segments of at most the local MSS that continue it without a gap, and the queue length counts the
      buffers; otherwise nothing has changed but the note that memory was short. The result code says so:
      ERR_CONN exactly if nothing may be written, ERR_MEM exactly if the write is too much. */
  lemma WriteAllOrNothing(s: Pcb, data: seq<byte>, copy: bool, mem: nat, extra: nat)
    requires Inv(s)
    ensures var (r, err) := Write(s, data, copy, mem, extra);
      && (err == ErrOk ==>
            && Appended(s.unsent, data, MssLocal(s), s.lbb, r.unsent) && Tiles(r.unsent, Mid(s), r.lbb)
            && r.unacked == s.unacked && r.qlen == Bufs(r.unacked) + Bufs(r.unsent)
            && r.lbb == s.lbb + |data| && r.buf == s.buf - |data| && r.nxt == s.nxt && r.lastack == s.lastack)
      && (err != ErrOk ==> r == s || r == s.(memErr := true))
      && (err == ErrConn <==> !s.open)
      && (err == ErrMem <==> s.open && data != [] && TooMuch(s, |data|, copy, mem))
  {
    if s.open {
      MemExactly(s, data, copy, mem);
      if WriteChecks(s, |data|) == ErrOk && WriteFits(s, data, copy, mem) {
        WrittenAppended(s, data, copy, extra);
      }
    }
  }

  /** When a write is refused for lack of space. */
  lemma MemExactly(s: Pcb, data: seq<byte>, copy: bool, mem: nat)
    requires LineInv(s) && TailInv(s) && s.open
    ensures WriteChecks(s, |data|) == ErrOk && WriteFits(s, data, copy, mem) <==>
              data == [] || !TooMuch(s, |data|, copy, mem)
  {
    JoinedIs(s, |data|);
    if data != [] && |data| <= s.buf && s.qlen < TCP_SND_QUEUELEN {
      FitsExactly(s, data, copy, mem);
    }
  }

  lemma WriteKeeps(s: Pcb, data: seq<byte>, copy: bool, mem: nat, extra: nat)
    requires Inv(s)
    requires WriteChecks(s, |data|) == ErrOk && WriteFits(s, data, copy, mem) ==> ExtraOk(s, data, copy, extra)
    ensures Inv(Write(s, data, copy, mem, extra).0)
  {
    if WriteChecks(s, |data|) == ErrOk && WriteFits(s, data, copy, mem) {
      WrittenKeeps(s, data, copy, extra);
    } else {
      MemErrKeeps(s);
    }
  }

  /** The free space is never negative; more than the whole buffer exactly when a FIN that was added to a
      data segment has been acknowledged. */
  lemma BufferOverrunExactly(s: Pcb)
    requires Inv(s)
    ensures 0 <= s.buf <= TCP_SND_BUF + 1
    ensures s.open ==> s.buf <= TCP_SND_BUF
    ensures s.buf == TCP_SND_BUF + 1 <==> Piggybacked(s) && s.lastack == To(s)
  {
  }

  // ---------------------------------------------------------------------------------------------
  // Closing
  // ---------------------------------------------------------------------------------------------

  /** A FIN added to the last segment of a queue. */
  lemma QueueFin(q: seq<Seg>, from: int, to: int, stream: seq<byte>, base: int, mss: nat, last: Seg, r: seq<Seg>)
    requires QueueOk(q, from, to, stream, base, mss, false) && q != []
    requires last == q[|q| - 1].(fin := true) && r == q[|q| - 1 := last]
    ensures QueueOk(r, from, to + 1, stream, base, mss, true) && Bufs(r) == Bufs(q)
  {
    assert !q[|q| - 1].fin;
    TilesLast(q, from, to, last, r);
    BufsUpdate(q, |q| - 1, last, r);
    SegsWithFin(q, stream, base, mss, last, r);
  }

  lemma SegsWithFin(q: seq<Seg>, stream: seq<byte>, base: int, mss: nat, last: Seg, r: seq<Seg>)
    requires AllOk(q, stream, base, mss) && FinLast(q, false) && q != []
    requires last == q[|q| - 1].(fin := true) && r == q[|q| - 1 := last]
    ensures AllOk(r, stream, base, mss) && FinLast(r, true)
  {
    forall i | 0 <= i < |r|
      ensures SegOk(r[i], stream, base) && |r[i].data| <= mss && (r[i].fin ==> i == |r| - 1)
    {
      assert SegOk(q[i], stream, base) && !q[i].fin;
    }
  }

  lemma PiggybackKeeps(s: Pcb, mem: nat)
    requires Inv(s) && s.open && s.unsent != []
    ensures Inv(SendFin(s, mem).0) && Piggybacked(SendFin(s, mem).0)
  {
    var k := |s.unsent| - 1;
    assert !s.unsent[k].fin;
    var last := s.unsent[k].(fin := true);
    QueueFin(s.unsent, Mid(s), To(s), s.stream, s.base, MssLocal(s), last, s.unsent[k := last]);
  }

  /** A FIN of its own at the end of a queue. */
  lemma QueueOwnFin(q: seq<Seg>, from: int, stream: seq<byte>, base: int, mss: nat, seg: Seg, r: seq<Seg>)
    requires QueueOk(q, from, base + |stream|, stream, base, mss, false)
    requires seg == Seg(base + |stream|, [], true, 1) && r == q + [seg]
    ensures QueueOk(r, from, base + |stream| + 1, stream, base, mss, true) && Bufs(r) == Bufs(q) + 1
  {
    OwnFin(stream, base, mss, seg);
    QueueAppend(q, [seg], from, base + |stream|, base + |stream| + 1, stream, base, mss, true, r);
    BufsAppend(q, [seg], r);
  }

  lemma OwnFin(stream: seq<byte>, base: int, mss: nat, seg: Seg)
    requires seg == Seg(base + |stream|, [], true, 1)
    ensures QueueOk([seg], base + |stream|, base + |stream| + 1, stream, base, mss, true) && Bufs([seg]) == 1
  {
    assert [seg][1..] == [];
    assert stream[|stream|..|stream|] == [];
    assert SegOk(seg, stream, base);
  }

  lemma MemErrKeeps(s: Pcb)
    requires Inv(s)
    ensures Inv(s.(memErr := true))
  {
  }

  lemma EnqueueFinKeeps(s: Pcb, mem: nat)
    requires Inv(s) && s.open
    ensures Inv(EnqueueFin(s, mem).0)
  {
    MemErrKeeps(s);
    if s.qlen < TCP_SND_QUEUELEN && s.buf != 0 && mem >= 2 {
      EnqueuedKeeps(s, EnqueueFin(s, mem).0);
    }
  }

  lemma EnqueuedKeeps(s: Pcb, r: Pcb)
    requires Inv(s) && s.open && s.buf > 0 && r.unsent == s.unsent + [Seg(s.lbb, [], true, 1)]
    requires r == s.(unsent := r.unsent, oversize := 0, lbb := s.lbb + 1, buf := s.buf - 1, finFlag := true,
                     open := false, qlen := s.qlen + 1)
    ensures Inv(r)
  {
    QueueOwnFin(s.unsent, Mid(s), s.stream, s.base, MssLocal(s), Seg(s.lbb, [], true, 1), r.unsent);
    EnqueuedLine(s, r);
    EnqueuedCounts(s, r);
  }

  lemma EnqueuedCounts(s: Pcb, r: Pcb)
    requires CountInv(s) && s.open && s.buf > 0 && r.unsent != [] && Mid(r) == Mid(s)
    requires r == s.(unsent := r.unsent, oversize := 0, lbb := s.lbb + 1, buf := s.buf - 1, finFlag := true,
                     open := false, qlen := s.qlen + 1)
    requires Bufs(r.unsent) == Bufs(s.unsent) + 1
    ensures CountInv(r) && TailInv(r)
  {
  }

  lemma EnqueuedLine(s: Pcb, r: Pcb)
    requires LineInv(s) && s.open && s.lbb == s.base + |s.stream|
    requires r == s.(unsent := r.unsent, oversize := r.oversize, lbb := r.lbb, buf := r.buf, finFlag := r.finFlag,
                     open := false, qlen := r.qlen)
    requires r.unsent == s.unsent + [Seg(s.lbb, [], true, 1)]
    requires QueueOk(r.unsent, Mid(s), To(s) + 1, s.stream, s.base, MssLocal(s), true)
    ensures LineInv(r) && Mid(r) == Mid(s)
  {
  }

  lemma SendFinKeeps(s: Pcb, mem: nat)
    requires Inv(s) && s.open
    ensures Inv(SendFin(s, mem).0)
  {
    if s.unsent != [] {
      assert !s.unsent[|s.unsent| - 1].fin;
      PiggybackKeeps(s, mem);
    } else {
      EnqueueFinKeeps(s, mem);
    }
  }

  // ---------------------------------------------------------------------------------------------
  // Sending
  // ---------------------------------------------------------------------------------------------

  lemma InsertAtEnd(q: seq<Seg>, from: int, to: int, seg: Seg)
    requires Tiles(q, from, to) && to <= seg.seqno
    ensures Insert(q, seg) == q + [seg]
  {
    if q != [] {
      TilesAt(q, from, to, |q| - 1);
    }
  }

  /** The first segment of one queue becomes the last of the other. */
  lemma QueueShift(a: seq<Seg>, u: seq<Seg>, from: int, mid: int, to: int, stream: seq<byte>, base: int, mss: nat,
                   fin: bool, seg: Seg, rest: seq<Seg>, a': seq<Seg>)
    requires QueueOk(a, from, mid, stream, base, mss, false) && QueueOk(u, mid, to, stream, base, mss, fin)
    requires u != [] && seg == u[0] && rest == u[1..] && a' == a + [seg]
    ensures QueueOk(a', from, seg.End(), stream, base, mss, fin && rest == [])
    ensures QueueOk(rest, seg.End(), to, stream, base, mss, fin)
    ensures Insert(a, seg) == a' && seg.Len() > 0 && seg.End() <= to
    ensures Bufs(a') + Bufs(rest) == Bufs(a) + Bufs(u)
    ensures rest != [] ==> rest[0].seqno == seg.End()
    ensures rest == [] ==> seg.End() == to
  {
    InsertAtEnd(a, from, mid, seg);
    TilesGrow(rest, seg.End(), to);
    OneSegment(seg, stream, base, mss, fin && rest == []);
    QueueAppend(a, [seg], from, mid, seg.End(), stream, base, mss, fin && rest == [], a');
    QueueRest(u, mid, to, stream, base, mss, fin, 1, seg.End());
    BufsAppend(a, [seg], a');
  }

  lemma OneSegment(seg: Seg, stream: seq<byte>, base: int, mss: nat, fin: bool)
    requires SegOk(seg, stream, base) && |seg.data| <= mss && seg.Len() > 0 && (seg.fin ==> fin)
    ensures QueueOk([seg], seg.seqno, seg.End(), stream, base, mss, fin) && Bufs([seg]) == seg.clen
  {
    assert [seg][1..] == [];
  }

  lemma SendOneKeeps(s: Pcb)
    requires LineInv(s) && CountInv(s) && s.unsent != []
    ensures LineInv(SendOne(s)) && CountInv(SendOne(s))
    ensures SendOne(s).unacked == s.unacked + [s.unsent[0]]
  {
    var seg, rest := s.unsent[0], s.unsent[1..];
    QueueShift(s.unacked, s.unsent, From(s), Mid(s), To(s), s.stream, s.base, MssLocal(s), !s.open, seg, rest,
               s.unacked + [seg]);
    SentLine(s, SendOne(s), seg);
    SentCounts(s, SendOne(s), seg);
  }

  lemma SentCounts(s: Pcb, r: Pcb, seg: Seg)
    requires CountInv(s) && r == s.(unsent := r.unsent, unacked := r.unacked, nxt := r.nxt)
    requires Bufs(r.unacked) + Bufs(r.unsent) == Bufs(s.unacked) + Bufs(s.unsent)
    requires r.nxt == (if s.nxt < seg.End() then seg.End() else s.nxt) && seg.End() <= To(s) && Mid(r) == seg.End()
    ensures CountInv(r)
  {
  }

  lemma SentLine(s: Pcb, r: Pcb, seg: Seg)
    requires LineInv(s) && s.unsent != [] && seg == s.unsent[0]
    requires r.unsent == s.unsent[1..] && r.unacked == s.unacked + [seg]
    requires r == s.(unsent := r.unsent, unacked := r.unacked, nxt := r.nxt)
    requires QueueOk(r.unacked, From(s), seg.End(), s.stream, s.base, MssLocal(s), !s.open && r.unsent == [])
    requires QueueOk(r.unsent, seg.End(), To(s), s.stream, s.base, MssLocal(s), !s.open)
    requires (r.unsent != [] ==> r.unsent[0].seqno == seg.End()) && (r.unsent == [] ==> seg.End() == To(s))
    ensures LineInv(r) && Mid(r) == seg.End()
  {
    if s.unacked != [] {
      assert r.unacked[0] == s.unacked[0];
    }
  }

  lemma {:induction false} SendLoopKeeps(s: Pcb)
    requires LineInv(s) && CountInv(s)
    ensures LineInv(SendLoop(s)) && CountInv(SendLoop(s))
    decreases |s.unsent|
  {
    if CanSend(s) {
      SendOneKeeps(s);
      SendLoopKeeps(SendOne(s));
    }
  }

  lemma {:induction false} SendLoopRest(s: Pcb)
    ensures var r := SendLoop(s);
      && |r.unsent| <= |s.unsent| && r.unsent == s.unsent[|s.unsent| - |r.unsent|..]
      && r.oversize == s.oversize && r.open == s.open && MssLocal(r) == MssLocal(s)
    decreases |s.unsent|
  {
    if CanSend(s) {
      SendLoopRest(SendOne(s));
    }
  }

  lemma OutputKeeps(s: Pcb)
    requires Inv(s)
    ensures Inv(Output(s))
  {
    SendLoopKeeps(s);
    SendLoopRest(s);
    OutputTail(s, SendLoop(s), Output(s));
  }

  lemma OutputTail(s: Pcb, r: Pcb, t: Pcb)
    requires TailInv(s) && LineInv(r) && CountInv(r)
    requires |r.unsent| <= |s.unsent| && r.unsent == s.unsent[|s.unsent| - |r.unsent|..]
    requires r.oversize == s.oversize && r.open == s.open && MssLocal(r) == MssLocal(s)
    requires t == r.(oversize := if r.unsent == [] then 0 else r.oversize, memErr := false)
    ensures Inv(t)
  {
    if r.unsent != [] {
      assert r.unsent[|r.unsent| - 1] == s.unsent[|s.unsent| - 1];
    }
  }

  lemma RexmitRtoKeeps(s: Pcb)
    requires Inv(s)
    ensures Inv(RexmitRto(s))
  {
    var r := RexmitRto(s);
    QueueAppend(s.unacked, s.unsent, From(s), Mid(s), To(s), s.stream, s.base, MssLocal(s), !s.open, r.unsent);
    BufsAppend(s.unacked, s.unsent, r.unsent);
    if s.unsent != [] {
      assert r.unsent[|r.unsent| - 1] == s.unsent[|s.unsent| - 1];
    } else if s.unacked != [] {
      assert r.unsent[|r.unsent| - 1] == s.unacked[|s.unacked| - 1];
    }
  }

  /** One segment more that went from the front of one queue to the end of the other. */
  lemma SentNext(unacked: seq<Seg>, unsent: seq<Seg>, n: nat, unacked': seq<Seg>, unsent': seq<Seg>)
    requires 0 < n <= |unsent| && unacked' == unacked + [unsent[0]] && unsent' == unsent[1..]
    ensures unacked' + unsent'[..n - 1] == unacked + unsent[..n] && unsent'[n - 1..] == unsent[n..]
  {
    assert unsent[..n] == [unsent[0]] + unsent'[..n - 1];
  }

  lemma {:induction false} OutputMoves(s: Pcb)
    requires LineInv(s) && CountInv(s)
    ensures var r := SendLoop(s); var n := |s.unsent| - |r.unsent|;
      0 <= n && r.unacked == s.unacked + s.unsent[..n] && r.unsent == s.unsent[n..]
    decreases |s.unsent|
  {
    if CanSend(s) {
      SendOneKeeps(s);
      var t := SendOne(s);
      OutputMoves(t);
      SentNext(s.unacked, s.unsent, |s.unsent| - |SendLoop(t).unsent|, t.unacked, t.unsent);
    }
  }

  lemma {:induction false} OutputWithin(s: Pcb, i: nat)
    requires i < |s.unsent| - |SendLoop(s).unsent|
    ensures s.unsent[i].seqno + |s.unsent[i].data| <= s.lastack + Min(s.wnd, s.cwnd)
    decreases |s.unsent|
  {
    if CanSend(s) && i > 0 {
      OutputWithin(SendOne(s), i - 1);
    }
  }

  lemma {:induction false} OutputStops(s: Pcb)
    ensures var r := SendLoop(s); !CanSend(r) && r.lastack == s.lastack && r.wnd == s.wnd && r.cwnd == s.cwnd
    decreases |s.unsent|
  {
    if CanSend(s) {
      OutputStops(SendOne(s));
    }
  }

  /** tcp_output sends the first n unsent segments, all within the window, in order and to the end of the
      unacknowledged queue, and stops only where nothing is left, the next one is beyond the window, or it has
      to wait for more data. */
  lemma OutputExactly(s: Pcb, i: nat)
    requires LineInv(s) && CountInv(s)
    ensures var r := SendLoop(s); var n := |s.unsent| - |r.unsent|;
      && 0 <= n && r.unacked == s.unacked + s.unsent[..n] && r.unsent == s.unsent[n..]
      && (i < n ==> s.unsent[i].seqno + |s.unsent[i].data| <= s.lastack + Min(s.wnd, s.cwnd))
      && (r.unsent == []
          || r.unsent[0].seqno + |r.unsent[0].data| > s.lastack + Min(s.wnd, s.cwnd)
          || !(Nagle(r) || r.memErr || r.finFlag))
  {
    OutputMoves(s);
    OutputStops(s);
    if i < |s.unsent| - |SendLoop(s).unsent| {
      OutputWithin(s, i);
    }
  }

  // ---------------------------------------------------------------------------------------------
  // Acknowledgements
  // ---------------------------------------------------------------------------------------------

  /** What an acknowledgement covers of a queue lies before it, and the rest starts with it. */
  lemma {:induction false} CoveredTiles(q: seq<Seg>, from: int, to: int, ackno: int)
    requires Tiles(q, from, to)
    ensures var n := Covered(q, ackno);
      && (n < |q| ==> ackno < to && ackno < q[n].End() && Tiles(q[n..], q[n].seqno, to))
      && (n == |q| && q != [] ==> to <= ackno)
      && (from <= ackno && n < |q| ==> q[n].seqno <= ackno)
      && (0 < n <= |q| ==> from <= ackno)
    decreases |q|
  {
    if q != [] {
      var rest := q[1..];
      TilesGrow(rest, q[0].End(), to);
      if q[0].End() <= ackno {
        CoveredTiles(rest, q[0].End(), to, ackno);
        var n := Covered(q, ackno);
        assert n < |q| ==> q[n..] == rest[n - 1..];
      } else {
        assert q[0..] == q;
      }
    }
  }

  lemma {:induction false} FinsCount(q: seq<Seg>, fin: bool, n: nat)
    requires FinLast(q, fin) && n <= |q|
    ensures Fins(q[..n]) == if n == |q| && n > 0 && q[n - 1].fin then 1 else 0
    decreases |q|
  {
    if n > 0 {
      var r, p := q[1..], q[..n];
      assert p[1..] == r[..n - 1];
      forall i | 0 <= i < |r| && r[i].fin
        ensures i == |r| - 1 && fin
      {
        assert q[i + 1].fin;
      }
      FinsCount(r, fin, n - 1);
    }
  }

  /** What the two loops take off. */
  ghost predicate Takes(s: Pcb, ackno: int, k: nat, j: nat) {
    k == (if ackno > s.lastack then Covered(s.unacked, ackno) else 0) && j == Covered(s.unsent, ackno)
  }

  /** The unsent queue is touched only when nothing is left unacknowledged. */
  lemma TakesInOrder(s: Pcb, ackno: int, k: nat, j: nat)
    requires LineInv(s) && Takes(s, ackno, k, j) && ackno <= To(s)
    ensures k < |s.unacked| ==> j == 0
    ensures ackno <= s.lastack ==> k == 0 && j == 0
  {
    CoveredTiles(s.unacked, From(s), Mid(s), ackno);
    CoveredTiles(s.unsent, Mid(s), To(s), ackno);
    if s.unacked != [] {
      TilesAt(s.unacked, From(s), Mid(s), 0);
    }
    if s.unsent != [] {
      TilesAt(s.unsent, Mid(s), To(s), 0);
    }
  }

  lemma AckUnacked(s: Pcb, ackno: int, k: nat)
    requires LineInv(s) && s.lastack < ackno <= To(s) && k == Covered(s.unacked, ackno)
    ensures var q := s.unacked[k..]; var from := if q == [] then Mid(s) else q[0].seqno;
      QueueOk(q, from, Mid(s), s.stream, s.base, MssLocal(s), !s.open && s.unsent == [])
    ensures s.unacked[k..] != [] ==> StartsWith(s.unacked[k..], ackno)
    ensures k == |s.unacked| ==> Mid(s) <= ackno || s.unacked == []
  {
    var q := s.unacked[k..];
    CoveredTiles(s.unacked, From(s), Mid(s), ackno);
    var from := if q == [] then Mid(s) else q[0].seqno;
    QueueRest(s.unacked, From(s), Mid(s), s.stream, s.base, MssLocal(s), !s.open && s.unsent == [], k, from);
  }

  lemma AckUnsent(s: Pcb, ackno: int, j: nat)
    requires LineInv(s) && s.lastack < ackno <= To(s) && j == Covered(s.unsent, ackno)
    ensures var q := s.unsent[j..]; var mid := if q == [] then To(s) else q[0].seqno;
      QueueOk(q, mid, To(s), s.stream, s.base, MssLocal(s), !s.open)
    ensures s.unsent[j..] != [] && Mid(s) <= ackno ==> StartsWith(s.unsent[j..], ackno)
    ensures j == |s.unsent| && s.unsent != [] ==> ackno == To(s)
    ensures j < |s.unsent| ==> ackno < To(s)
  {
    var q := s.unsent[j..];
    CoveredTiles(s.unsent, Mid(s), To(s), ackno);
    var mid := if q == [] then To(s) else q[0].seqno;
    QueueRest(s.unsent, Mid(s), To(s), s.stream, s.base, MssLocal(s), !s.open, j, mid);
  }

  lemma AckLine(s: Pcb, ackno: int, k: nat, j: nat, r: Pcb)
    requires LineInv(s) && s.lastack < ackno <= To(s) && Takes(s, ackno, k, j)
    requires r.unacked == s.unacked[k..] && r.unsent == s.unsent[j..] && r.lastack == ackno
    requires r.stream == s.stream && r.base == s.base && r.open == s.open && MssLocal(s) <= MssLocal(r)
    ensures LineInv(r) && (r.unacked != [] ==> Mid(r) == Mid(s))
  {
    AckUnacked(s, ackno, k);
    AckUnsent(s, ackno, j);
    TakesInOrder(s, ackno, k, j);
    AckMids(s, ackno, k, j, r);
    QueueWider(r.unacked, From(r), Mid(r), r.stream, r.base, MssLocal(s), !r.open && r.unsent == [], MssLocal(r));
    QueueWider(r.unsent, Mid(r), To(r), r.stream, r.base, MssLocal(s), !r.open, MssLocal(r));
  }

  /** If an unacknowledged segment is left, nothing unsent went; otherwise nothing is left in front. */
  lemma AckMids(s: Pcb, ackno: int, k: nat, j: nat, r: Pcb)
    requires k <= |s.unacked| && j <= |s.unsent| && (k < |s.unacked| ==> j == 0)
    requires r.unacked == s.unacked[k..] && r.unsent == s.unsent[j..]
    requires r.stream == s.stream && r.base == s.base && r.open == s.open
    ensures r.unacked != [] ==> r.unsent == s.unsent && Mid(r) == Mid(s)
    ensures r.unacked == [] ==> From(r) == Mid(r)
  {
    if k < |s.unacked| {
      assert s.unsent[0..] == s.unsent;
    }
  }

  /** Of what is acknowledged, the FIN is not reported as sent. */
  lemma AckFins(s: Pcb, ackno: int, k: nat, j: nat)
    requires LineInv(s) && s.lastack < ackno <= To(s) && Takes(s, ackno, k, j)
    ensures Fins(s.unacked[..k]) + Fins(s.unsent[..j]) == if ackno > s.base + |s.stream| then 1 else 0
  {
    AckUnacked(s, ackno, k);
    AckUnsent(s, ackno, j);
    TakesInOrder(s, ackno, k, j);
    FinsCount(s.unacked, !s.open && s.unsent == [], k);
    FinsCount(s.unsent, !s.open, j);
    CoveredTiles(s.unacked, From(s), Mid(s), ackno);
    if s.unsent != [] {
      TilesAt(s.unsent, Mid(s), To(s), |s.unsent| - 1);
      assert SegOk(s.unsent[|s.unsent| - 1], s.stream, s.base);
    } else {
      TilesAt(s.unacked, From(s), Mid(s), |s.unacked| - 1);
      assert SegOk(s.unacked[|s.unacked| - 1], s.stream, s.base);
    }
  }

  /** The buffers of the segments that go. */
  lemma AckBufs(q: seq<Seg>, k: nat)
    requires k <= |q|
    ensures Bufs(q) == Bufs(q[..k]) + Bufs(q[k..])
  {
    assert q == q[..k] + q[k..];
    BufsAppend(q[..k], q[k..], q);
  }

  lemma AckTail(s: Pcb, j: nat, r: Pcb)
    requires TailInv(s) && j <= |s.unsent| && r.unsent == s.unsent[j..]
    requires r.open == s.open && MssLocal(s) <= MssLocal(r)
    requires r.oversize == if j > 0 && j == |s.unsent| then 0 else s.oversize
    ensures TailInv(r)
  {
    if r.unsent != [] {
      assert r.unsent[|r.unsent| - 1] == s.unsent[|s.unsent| - 1];
    }
  }

  lemma AckKeeps(s: Pcb, ackno: int, update: bool, wnd: nat)
    requires Inv(s)
    ensures Inv(Ack(s, ackno, update, wnd))
  {
    var r := Ack(s, ackno, update, wnd);
    if s.lastack < ackno <= s.nxt {
      AckNew(s, ackno, update, wnd);
    } else {
      if ackno <= s.nxt {
        TakesInOrder(s, ackno, 0, Covered(s.unsent, ackno));
        assert s.unacked[0..] == s.unacked && s.unsent[0..] == s.unsent;
        assert s.unacked[..0] == [] && s.unsent[..0] == [];
      }
      AckOld(s, r, wnd);
    }
  }

  lemma AckOld(s: Pcb, r: Pcb, wnd: nat)
    requires Inv(s) && MssLocal(s) <= MssLocal(r) && r == s.(wnd := r.wnd, wndMax := r.wndMax)
    ensures Inv(r)
  {
    LineWider(s, r);
    CountsSame(s, r);
    AckTail(s, 0, r);
  }

  /** What LineInv is about, apart from the size of the segments. */
  predicate SameLine(s: Pcb, r: Pcb) {
    && r.unacked == s.unacked && r.unsent == s.unsent && r.stream == s.stream && r.base == s.base && r.open == s.open
    && r.lastack == s.lastack
  }

  lemma LineWider(s: Pcb, r: Pcb)
    requires LineInv(s) && SameLine(s, r) && MssLocal(s) <= MssLocal(r)
    ensures LineInv(r)
  {
    assert From(r) == From(s) && Mid(r) == Mid(s) && To(r) == To(s);
    QueueWider(s.unacked, From(s), Mid(s), s.stream, s.base, MssLocal(s), !s.open && s.unsent == [], MssLocal(r));
    QueueWider(s.unsent, Mid(s), To(s), s.stream, s.base, MssLocal(s), !s.open, MssLocal(r));
  }

  lemma CountsSame(s: Pcb, r: Pcb)
    requires CountInv(s) && SameLine(s, r)
    requires r.qlen == s.qlen && r.buf == s.buf && r.lbb == s.lbb && r.nxt == s.nxt && r.reported == s.reported
    ensures CountInv(r)
  {
  }

  lemma AckNew(s: Pcb, ackno: int, update: bool, wnd: nat)
    requires Inv(s) && s.lastack < ackno <= s.nxt
    ensures Inv(Ack(s, ackno, update, wnd))
  {
    var r, k, j := Ack(s, ackno, update, wnd), Covered(s.unacked, ackno), Covered(s.unsent, ackno);
    AckLine(s, ackno, k, j, r);
    AckTail(s, j, r);
    AckFins(s, ackno, k, j);
    AckBufs(s.unacked, k);
    AckBufs(s.unsent, j);
    AckCounts(s, ackno, Bufs(s.unacked[..k]) + Bufs(s.unsent[..j]), Fins(s.unacked[..k]) + Fins(s.unsent[..j]), r);
  }

  lemma AckCounts(s: Pcb, ackno: int, bufs: nat, fins: nat, r: Pcb)
    requires CountInv(s) && s.lastack < ackno <= s.nxt && (r.unacked != [] ==> Mid(r) == Mid(s) && s.unacked != [])
    requires r.stream == s.stream && r.base == s.base && r.open == s.open && r.lbb == s.lbb && r.nxt == s.nxt
    requires r.lastack == ackno && r.buf == s.buf + (ackno - s.lastack)
    requires Bufs(s.unacked) + Bufs(s.unsent) == bufs + (Bufs(r.unacked) + Bufs(r.unsent))
    requires r.qlen == if bufs <= s.qlen then s.qlen - bufs else 0
    requires fins == if ackno > s.base + |s.stream| then 1 else 0
    requires r.reported == s.reported + if ackno - s.lastack > fins then ackno - s.lastack - fins else 0
    ensures CountInv(r)
  {
  }

  /** That happens: once such a FIN has been sent, its acknowledgement gives back one byte too many. */
  lemma PiggybackedFinOverruns(s: Pcb, update: bool, wnd: nat)
    requires Inv(s) && Piggybacked(s) && s.nxt == To(s) && s.lastack < To(s)
    ensures Ack(s, To(s), update, wnd).buf == TCP_SND_BUF + 1
  {
  }

  // ---------------------------------------------------------------------------------------------
  // Fast retransmission
  // ---------------------------------------------------------------------------------------------

  lemma InsertAtFront(q: seq<Seg>, from: int, to: int, seg: Seg)
    requires Tiles(q, from, to) && seg.seqno < from
    ensures InsertSorted(q, seg) == [seg] + q && Insert(q, seg) == [seg] + q
    ensures q != [] ==> q[|q| - 1] != seg
  {
    if q != [] {
      TilesAt(q, from, to, |q| - 1);
    }
  }

  /** tcp_rexmit, followed at once by the transmission of the segment, leaves the connection as it was. */
  lemma RexmitThenSend(s: Pcb)
    requires Inv(s) && s.unacked != []
    ensures Rexmit(s).unsent == [s.unacked[0]] + s.unsent && SendOne(Rexmit(s)) == s
  {
    var first, rest := s.unacked[0], s.unacked[1..];
    TilesAt(s.unacked, From(s), Mid(s), 0);
    InsertAtFront(s.unsent, Mid(s), To(s), first);
    InsertAtFront(rest, first.End(), Mid(s), first);
    assert [first] + rest == s.unacked;
    var t := Rexmit(s);
    assert t.unsent == [first] + s.unsent;
    assert t.unsent[1..] == s.unsent && t.unsent[0] == first;
    assert t.oversize == s.oversize;
  }

  /** Segments of a queue in order, and clear of each other. */
  ghost predicate Ascending(q: seq<Seg>) {
    forall i, j | 0 <= i < j < |q| :: q[i].End() <= q[j].seqno
  }

  predicate Clear(a: Seg, b: Seg) {
    a.End() <= b.seqno || b.End() <= a.seqno
  }

  ghost predicate AllClear(a: seq<Seg>, b: seq<Seg>) {
    forall i, j | 0 <= i < |a| && 0 <= j < |b| :: Clear(a[i], b[j])
  }

  /** Both queues are in order and no byte is queued twice. */
  ghost predicate InLine(s: Pcb) {
    Ascending(s.unacked) && Ascending(s.unsent) && AllClear(s.unacked, s.unsent)
  }

  lemma {:induction false} TilesAscending(q: seq<Seg>, from: int, to: int)
    requires Tiles(q, from, to)
    ensures Ascending(q) && forall i | 0 <= i < |q| :: from <= q[i].seqno < q[i].End() <= to
    decreases |q|
  {
    if q != [] {
      var rest := q[1..];
      TilesAscending(rest, q[0].End(), to);
      TilesAt(q, from, to, 0);
      forall i, j | 0 <= i < j < |q|
        ensures q[i].End() <= q[j].seqno
      {
        assert q[j] == rest[j - 1] && (i > 0 ==> q[i] == rest[i - 1]);
      }
      forall i | 0 <= i < |q|
        ensures from <= q[i].seqno < q[i].End() <= to
      {
        assert i > 0 ==> q[i] == rest[i - 1];
      }
    }
  }

  lemma LineInLine(s: Pcb)
    requires LineInv(s)
    ensures InLine(s)
  {
    TilesAscending(s.unacked, From(s), Mid(s));
    TilesAscending(s.unsent, Mid(s), To(s));
  }

  lemma RexmitQueues(s: Pcb)
    requires LineInv(s) && s.unacked != []
    ensures Rexmit(s).unsent == [s.unacked[0]] + s.unsent && Rexmit(s).unacked == s.unacked[1..]
    ensures Rexmit(s).oversize == if s.unsent == [] then 0 else s.oversize
  {
    TilesAt(s.unacked, From(s), Mid(s), 0);
    InsertAtFront(s.unsent, Mid(s), To(s), s.unacked[0]);
  }

  /** tcp_rexmit alone keeps the queues in order. */
  lemma RexmitInLine(s: Pcb)
    requires LineInv(s) && s.unacked != []
    ensures InLine(Rexmit(s))
  {
    var first, rest, q := s.unacked[0], s.unacked[1..], [s.unacked[0]] + s.unsent;
    RexmitQueues(s);
    TilesAscending(rest, first.End(), Mid(s));
    TilesAscending(s.unsent, Mid(s), To(s));
    TilesAt(s.unacked, From(s), Mid(s), 0);
    FirstInFront(first, rest, s.unsent, Mid(s), q);
  }

  lemma FirstInFront(first: Seg, rest: seq<Seg>, unsent: seq<Seg>, mid: int, q: seq<Seg>)
    requires q == [first] + unsent && first.End() <= mid && Ascending(unsent)
    requires forall i | 0 <= i < |rest| :: first.End() <= rest[i].seqno && rest[i].End() <= mid
    requires forall j | 0 <= j < |unsent| :: mid <= unsent[j].seqno
    ensures Ascending(q) && AllClear(rest, q)
  {
    assert forall j | 0 < j < |q| :: q[j] == unsent[j - 1];
  }

  /** What a write makes of the unsent queue. */
  lemma WrittenQueue(s: Pcb, data: seq<byte>, copy: bool, extra: nat)
    requires Joined(s, |data|) <= |data| && (Joined(s, |data|) < |data| ==> MssLocal(s) > 0)
    ensures Written(s, data, copy, extra).unsent == Extended(s, data) + More(s, data, copy)
    ensures Written(s, data, copy, extra).unacked == s.unacked
  {
  }

  lemma MoreSame(s: Pcb, t: Pcb, data: seq<byte>, copy: bool)
    requires t.lbb == s.lbb && MssLocal(t) == MssLocal(s) && Joined(t, |data|) == Joined(s, |data|) <= |data|
    requires Joined(s, |data|) < |data| ==> MssLocal(s) > 0
    ensures More(t, data, copy) == More(s, data, copy)
  {
  }

  lemma ExtendedWaiting(s: Pcb, t: Pcb, first: Seg, data: seq<byte>)
    requires t.unsent == [first] + s.unsent && t.oversize == (if s.unsent == [] then 0 else s.oversize)
    requires MssLocal(t) == MssLocal(s) && Joined(s, |data|) <= |data|
    requires s.unsent != [] || |first.data| >= MssLocal(s)
    ensures Joined(t, |data|) == Joined(s, |data|) && Extended(t, data) == [first] + Extended(s, data)
  {
    if s.unsent == [] {
      assert t.unsent == [first];
      WaitingFull(t, first, data);
    } else {
      ExtendedBehind(s, t, first, data);
    }
  }

  /** A write behind a segment that waits to be sent again does what it would have done before, if there are
      unsent segments or the waiting one is full. */
  lemma WriteCommutes(s: Pcb, data: seq<byte>, copy: bool, extra: nat)
    requires LineInv(s) && CountInv(s) && TailInv(s) && s.open && s.unacked != []
    requires s.unsent != [] || |s.unacked[0].data| >= MssLocal(s)
    requires Joined(s, |data|) < |data| ==> MssLocal(s) > 0
    ensures Joined(Rexmit(s), |data|) == Joined(s, |data|)
    ensures Written(Rexmit(s), data, copy, extra).unsent == Rexmit(Written(s, data, copy, extra)).unsent
    ensures Written(Rexmit(s), data, copy, extra).unacked == Rexmit(Written(s, data, copy, extra)).unacked
    ensures LineInv(Written(s, data, copy, extra))
  {
    JoinedFits(s, |data|);
    var first, t, w := s.unacked[0], Rexmit(s), Written(s, data, copy, extra);
    RexmitQueues(s);
    WrittenLine(s, data, copy, extra);
    RexmitQueues(w);
    ExtendedWaiting(s, t, first, data);
    MoreSame(s, t, data, copy);
    WrittenQueue(s, data, copy, extra);
    WrittenQueue(t, data, copy, extra);
    Regroup([first], Extended(s, data), More(s, data, copy));
  }

  lemma ExtendedBehind(s: Pcb, t: Pcb, first: Seg, data: seq<byte>)
    requires s.unsent != [] && t.unsent == [first] + s.unsent && t.oversize == s.oversize && MssLocal(t) == MssLocal(s)
    requires Joined(s, |data|) <= |data|
    ensures Joined(t, |data|) == Joined(s, |data|) && Chain(t, |data|) == Chain(s, |data|)
    ensures Extended(t, data) == [first] + Extended(s, data)
  {
    assert t.unsent[|t.unsent| - 1] == s.unsent[|s.unsent| - 1];
    assert t.unsent[..|t.unsent| - 1] == [first] + s.unsent[..|s.unsent| - 1];
  }

  lemma WaitingFull(t: Pcb, first: Seg, data: seq<byte>)
    requires t.unsent == [first] && t.oversize == 0 && |first.data| >= MssLocal(t)
    ensures Joined(t, |data|) == 0 && Extended(t, data) == [first]
  {
    assert t.unsent[..0] == [] && first.data + data[..0] == first.data;
  }

  /** A segment that waits to be sent again in front of unacknowledged ones grows into its successor when a
      write finds room in it. */
  lemma WaitingGrows(t: Pcb, first: Seg, data: seq<byte>, copy: bool, extra: nat)
    requires t.unsent == [first] && t.oversize == 0 && 0 < |first.data| < MssLocal(t) && data != [] && !first.fin
    requires t.unacked != [] && t.unacked[0].seqno == first.End() && t.unacked[0].Len() > 0
    requires Joined(t, |data|) < |data| ==> MssLocal(t) > 0
    ensures !InLine(Written(t, data, copy, extra))
  {
    JoinedFits(t, |data|);
    var r := Written(t, data, copy, extra);
    assert t.unsent[..0] == [];
    assert r.unsent[0].seqno == first.seqno && |r.unsent[0].data| > |first.data|;
    assert !Clear(r.unacked[0], r.unsent[0]);
  }

  /** With only one unacknowledged segment, sending it again is a timeout. */
  lemma RexmitIsRto(s: Pcb)
    requires Inv(s) && |s.unacked| == 1
    ensures Rexmit(s) == RexmitRto(s) && Inv(Rexmit(s))
  {
    RexmitQueues(s);
    RexmitRtoKeeps(s);
    assert [s.unacked[0]] + s.unsent == s.unacked + s.unsent && s.unacked[1..] == [];
  }

  /** A write while a retransmitted segment waits keeps the queues in order exactly if it fails, is empty, or
      the waiting segment is not the last one unsent, is the last one of all, or is full. */
  lemma WriteAfterRexmitExactly(s: Pcb, data: seq<byte>, copy: bool, mem: nat, extra: nat)
    requires Inv(s) && s.unacked != []
    ensures var (r, err) := Write(Rexmit(s), data, copy, mem, extra);
      InLine(r) <==> err != ErrOk || data == [] || s.unsent != [] || |s.unacked| == 1
                     || |s.unacked[0].data| >= MssLocal(s)
  {
    var t := Rexmit(s);
    RexmitQueues(s);
    RexmitInLine(s);
    if Write(t, data, copy, mem, extra).1 == ErrOk {
      JoinedFits(t, |data|);
      if s.unsent != [] || |s.unacked[0].data| >= MssLocal(s) {
        OkAfterRexmit(s, data, copy, mem, extra);
      } else if |s.unacked| == 1 {
        RexmitIsRto(s);
        WrittenLine(t, data, copy, extra);
        LineInLine(Written(t, data, copy, extra));
      } else {
        var first, next := s.unacked[0], s.unacked[1];
        assert s.unacked[1..][0] == next && Tiles(s.unacked[1..], first.End(), Mid(s)) && !first.fin;
        if data != [] {
          WaitingGrows(t, first, data, copy, extra);
        } else {
          EmptyWrite(t, copy, extra);
        }
      }
    }
  }

  lemma EmptyWrite(t: Pcb, copy: bool, extra: nat)
    requires Joined(t, 0) == 0
    ensures Written(t, [], copy, extra).unsent == t.unsent && Written(t, [], copy, extra).unacked == t.unacked
  {
    var none: seq<byte> := [];
    if t.unsent != [] {
      var last := t.unsent[|t.unsent| - 1];
      assert last.data + none[..0] == last.data;
      assert t.unsent == t.unsent[..|t.unsent| - 1] + [last];
    }
  }

  lemma OkAfterRexmit(s: Pcb, data: seq<byte>, copy: bool, mem: nat, extra: nat)
    requires Inv(s) && s.open && s.unacked != [] && (s.unsent != [] || |s.unacked[0].data| >= MssLocal(s))
    requires Joined(Rexmit(s), |data|) < |data| ==> MssLocal(s) > 0
    ensures InLine(Written(Rexmit(s), data, copy, extra))
  {
    JoinedFits(s, |data|);
    if s.unsent == [] {
      RexmitQueues(s);
      WaitingFull(Rexmit(s), s.unacked[0], data);
    } else {
      RexmitQueues(s);
      ExtendedBehind(s, Rexmit(s), s.unacked[0], data);
    }
    WriteCommutes(s, data, copy, extra);
    RexmitInLine(Written(s, data, copy, extra));
  }

  /** Closing while a retransmitted segment waits keeps the queues in order exactly if it is not the last one
      unsent or is the last one of all; its being full does not help. */
  lemma CloseAfterRexmitExactly(s: Pcb, mem: nat)
    requires Inv(s) && s.open && s.unacked != []
    ensures InLine(SendFin(Rexmit(s), mem).0) <==> s.unsent != [] || |s.unacked| == 1
  {
    if s.unsent != [] {
      CloseBehind(s, mem);
    } else if |s.unacked| == 1 {
      RexmitIsRto(s);
      SendFinKeeps(Rexmit(s), mem);
      LineInLine(SendFin(Rexmit(s), mem).0);
    } else {
      CloseInFront(s, mem);
    }
  }

  /** The FIN goes to the end of the line. */
  lemma CloseBehind(s: Pcb, mem: nat)
    requires Inv(s) && s.open && s.unacked != [] && s.unsent != []
    ensures InLine(SendFin(Rexmit(s), mem).0)
    ensures SendFin(Rexmit(s), mem).0.unsent == Rexmit(SendFin(s, mem).0).unsent
  {
    var k, t, w := |s.unsent| - 1, Rexmit(s), SendFin(s, mem).0;
    RexmitQueues(s);
    assert !s.unsent[k].fin && t.unsent[k + 1] == s.unsent[k];
    SendFinKeeps(s, mem);
    RexmitQueues(w);
    RexmitInLine(w);
    assert SendFin(t, mem).0.unsent == [s.unacked[0]] + w.unsent;
  }

  /** The FIN goes to the waiting segment and takes the first byte of its successor. */
  lemma CloseInFront(s: Pcb, mem: nat)
    requires LineInv(s) && s.open && |s.unacked| >= 2 && s.unsent == []
    ensures !InLine(SendFin(Rexmit(s), mem).0)
  {
    var first, next, r := s.unacked[0], s.unacked[1], SendFin(Rexmit(s), mem).0;
    RexmitQueues(s);
    assert !first.fin && s.unacked[1..][0] == next && Tiles(s.unacked[1..], first.End(), Mid(s));
    assert r.unsent[0] == first.(fin := true) && !Clear(r.unacked[0], r.unsent[0]);
  }

  /** A timeout while a retransmitted segment waits keeps the order exactly if no other is unacknowledged. */
  lemma TimeoutAfterRexmitExactly(s: Pcb)
    requires Inv(s) && s.unacked != []
    ensures InLine(RexmitRto(Rexmit(s))) <==> |s.unacked| == 1
  {
    var t, first, rest := Rexmit(s), s.unacked[0], s.unacked[1..];
    RexmitQueues(s);
    RexmitInLine(s);
    var r := RexmitRto(t);
    if rest == [] {
      assert r.unsent == t.unsent;
    } else {
      TilesAt(rest, first.End(), Mid(s), 0);
      assert r.unsent[0] == rest[0] && r.unsent[|rest|] == first;
    }
  }

  // ---------------------------------------------------------------------------------------------
  // While a retransmitted segment waits
  // ---------------------------------------------------------------------------------------------

  /** The first unsent segment was sent before the unacknowledged ones. */
  predicate Waits(s: Pcb) {
    s.unacked != [] && s.unsent != [] && s.unsent[0].seqno < s.unacked[0].seqno
  }

  /** State `u`, but for its first unacknowledged segment, which waits to be sent again in front of the unsent
      ones. */
  ghost predicate WaitingFor(u: Pcb, s: Pcb) {
    Inv(u) && |u.unacked| >= 2 && s == Rexmit(u)
  }

  /** The states of a connection: in line, or with one segment waiting. */
  ghost predicate Sound(s: Pcb) {
    Inv(s) || exists u :: WaitingFor(u, s)
  }

  lemma WaitingWaits(u: Pcb, s: Pcb)
    requires WaitingFor(u, s)
    ensures Waits(s) && s.unsent == [u.unacked[0]] + u.unsent && s.unacked == u.unacked[1..] && s.oversize == u.oversize
    ensures u.unacked[1..][0] == u.unacked[1] && u.unacked[1].seqno == u.unacked[0].End() && u.unacked[1].Len() > 0
    ensures u.unacked[0].Len() > 0
  {
    RexmitQueues(u);
    var rest := u.unacked[1..];
    assert rest[0] == u.unacked[1] && Tiles(rest, u.unacked[0].End(), Mid(u));
  }

  /** Changes that have nothing to do with the queues. */
  lemma RexmitApart(u: Pcb, v: Pcb)
    requires v == u.(memErr := v.memErr, cwnd := v.cwnd, noDelay := v.noDelay, wnd := v.wnd, wndMax := v.wndMax)
    ensures Rexmit(v) == Rexmit(u).(memErr := v.memErr, cwnd := v.cwnd, noDelay := v.noDelay, wnd := v.wnd,
                                    wndMax := v.wndMax)
  {
    if u.unacked != [] {
      var q, rest := InsertSorted(u.unsent, u.unacked[0]), u.unacked[1..];
      assert v.unacked == u.unacked && v.unsent == u.unsent && v.oversize == u.oversize;
      assert Rexmit(u).unsent == q == Rexmit(v).unsent && Rexmit(u).unacked == rest == Rexmit(v).unacked;
    }
  }

  /** A segment in front changes nothing about a write behind it. */
  lemma WrittenWaiting(u: Pcb, s: Pcb, data: seq<byte>, copy: bool, extra: nat)
    requires WaitingFor(u, s) && u.open && (u.unsent != [] || |u.unacked[0].data| >= MssLocal(u))
    requires Joined(u, |data|) < |data| ==> MssLocal(u) > 0
    ensures Joined(s, |data|) == Joined(u, |data|)
    ensures Written(s, data, copy, extra) == Rexmit(Written(u, data, copy, extra))
  {
    var first, w := u.unacked[0], Written(u, data, copy, extra);
    WaitingWaits(u, s);
    WriteCommutes(u, data, copy, extra);
    JoinedFits(u, |data|);
    ChainWaiting(u, s, first, data);
    MoreSame(u, s, data, copy);
    RexmitQueues(w);
    SameRest(Written(s, data, copy, extra), Rexmit(w));
  }

  lemma ChainWaiting(u: Pcb, s: Pcb, first: Seg, data: seq<byte>)
    requires s.unsent == [first] + u.unsent && s.oversize == u.oversize && MssLocal(s) == MssLocal(u)
    requires (u.unsent == [] ==> u.oversize == 0) && Joined(u, |data|) <= |data|
    requires u.unsent != [] || |first.data| >= MssLocal(u)
    ensures Chain(s, |data|) == Chain(u, |data|) && Tail(s, |data|) == Tail(u, |data|)
  {
    if u.unsent != [] {
      assert s.unsent[|s.unsent| - 1] == u.unsent[|u.unsent| - 1];
    } else {
      assert s.unsent == [first];
    }
  }

  /** States that agree in every field are the same. */
  lemma SameRest(a: Pcb, b: Pcb)
    requires a.unacked == b.unacked && a.unsent == b.unsent && a.oversize == b.oversize && a.qlen == b.qlen
    requires a == b.(unacked := a.unacked, unsent := a.unsent, oversize := a.oversize, qlen := a.qlen)
    ensures a == b
  {
  }

  lemma FitsWaiting(u: Pcb, s: Pcb, data: seq<byte>, copy: bool, mem: nat)
    requires WaitingFor(u, s) && u.open && (u.unsent != [] || |u.unacked[0].data| >= MssLocal(u))
    ensures WriteFits(s, data, copy, mem) <==> WriteFits(u, data, copy, mem)
  {
    WaitingWaits(u, s);
    JoinedFits(u, |data|);
    ChainWaiting(u, s, u.unacked[0], data);
    ExtendedWaiting(u, s, u.unacked[0], data);
  }

  lemma WriteWaiting(u: Pcb, s: Pcb, data: seq<byte>, copy: bool, mem: nat, extra: nat)
    requires WaitingFor(u, s) && (u.unsent != [] || |u.unacked[0].data| >= MssLocal(u))
    requires WriteChecks(s, |data|) == ErrOk && WriteFits(s, data, copy, mem) ==> ExtraOk(s, data, copy, extra)
    ensures Sound(Write(s, data, copy, mem, extra).0)
  {
    if WriteChecks(s, |data|) == ErrOk {
      FitsWaiting(u, s, data, copy, mem);
    }
    if WriteChecks(s, |data|) == ErrOk && WriteFits(s, data, copy, mem) {
      var w := Written(u, data, copy, extra);
      WrittenWaiting(u, s, data, copy, extra);
      WriteCommutes(u, data, copy, extra);
      RexmitQueues(w);
      assert w.unsent != [] ==> Rexmit(w).unsent[|w.unsent|] == w.unsent[|w.unsent| - 1];
      WrittenKeeps(u, data, copy, extra);
      assert WaitingFor(w, Rexmit(w));
    } else {
      FailedWaiting(u, s);
    }
  }

  lemma FailedWaiting(u: Pcb, s: Pcb)
    requires WaitingFor(u, s)
    ensures Sound(s) && Sound(s.(memErr := true))
  {
    MemErrKeeps(u);
    RexmitApart(u, u.(memErr := true));
    assert WaitingFor(u.(memErr := true), s.(memErr := true));
  }

  lemma EmptyWaiting(u: Pcb, s: Pcb, copy: bool, mem: nat, extra: nat)
    requires WaitingFor(u, s)
    ensures Sound(Write(s, [], copy, mem, extra).0)
  {
    FailedWaiting(u, s);
    WaitingWaits(u, s);
    NothingWritten(s, copy, mem, extra);
  }

  lemma NothingWritten(s: Pcb, copy: bool, mem: nat, extra: nat)
    requires s.unsent != []
    ensures Write(s, [], copy, mem, extra).0 == s
  {
    assert Joined(s, 0) == 0 && Chain(s, 0) == 0;
    EmptyWrite(s, copy, extra);
    assert s.stream + [] == s.stream;
    SameRest(Written(s, [], copy, extra), s);
  }

  lemma FinWaiting(u: Pcb, s: Pcb, mem: nat)
    requires WaitingFor(u, s) && u.open && u.unsent != []
    ensures Sound(SendFin(s, mem).0)
  {
    WaitingWaits(u, s);
    var k, w := |u.unsent| - 1, SendFin(u, mem).0;
    assert !u.unsent[k].fin && s.unsent[k + 1] == u.unsent[k];
    SendFinKeeps(u, mem);
    CloseBehind(u, mem);
    RexmitQueues(w);
    SameRest(SendFin(s, mem).0, Rexmit(w));
    assert WaitingFor(w, Rexmit(w));
  }

  lemma OutputWaiting(u: Pcb, s: Pcb)
    requires WaitingFor(u, s)
    ensures Sound(Output(s)) && Sound(s)
  {
    RexmitThenSend(u);
    if CanSend(s) {
      assert SendLoop(s) == SendLoop(u);
      OutputKeeps(u);
    } else {
      WaitingWaits(u, s);
      var v := u.(memErr := false);
      RexmitApart(u, v);
      ForgetKeeps(u);
      assert Output(s) == s.(memErr := false);
      assert WaitingFor(v, Output(s));
    }
  }

  lemma ForgetKeeps(s: Pcb)
    requires Inv(s)
    ensures Inv(s.(memErr := false))
  {
  }

  /** An acknowledgement that leaves the waiting segment where it is. */
  lemma AckBefore(u: Pcb, s: Pcb, ackno: int, update: bool, wnd: nat) returns (a: Pcb, b: Pcb)
    requires WaitingFor(u, s) && (ackno < u.unacked[0].End() || ackno > u.nxt)
    ensures a == Ack(u, ackno, update, wnd) && b == Ack(s, ackno, update, wnd)
    ensures b == Rexmit(a) && |a.unacked| >= 2
  {
    if ackno <= u.nxt {
      NoneCovered(u, s, ackno);
    }
    var acked := if u.lastack < ackno <= u.nxt then ackno - u.lastack else 0;
    a := AckNothing(u, ackno, update, wnd, acked);
    b := AckNothing(s, ackno, update, wnd, acked);
    MovedTogether(u, s, update, wnd, acked, ackno <= u.nxt, a, b);
  }

  lemma MovedTogether(u: Pcb, s: Pcb, update: bool, wnd: nat, acked: nat, some: bool, a: Pcb, b: Pcb)
    requires s == Rexmit(u) && (!some ==> acked == 0)
    requires a == if some then Release(Window(u, update, wnd), acked, 0, 0, 0, 0) else Window(u, update, wnd)
    requires b == if some then Release(Window(s, update, wnd), acked, 0, 0, 0, 0) else Window(s, update, wnd)
    ensures b == Rexmit(a) && a.unacked == u.unacked
  {
    NothingMoved(u, update, wnd, acked, some, a);
    NothingMoved(s, update, wnd, acked, some, b);
    RexmitFields(u);
    RexmitMoved(u, a);
    MovedAlike(u, s, a, b);
  }

  lemma RexmitFields(u: Pcb)
    ensures var r := Rexmit(u); r == u.(unacked := r.unacked, unsent := r.unsent, oversize := r.oversize)
  {
  }

  lemma MovedAlike(u: Pcb, s: Pcb, a: Pcb, b: Pcb)
    requires s == u.(unacked := s.unacked, unsent := s.unsent, oversize := s.oversize)
    requires a == u.(wnd := a.wnd, wndMax := a.wndMax, buf := a.buf, lastack := a.lastack, reported := a.reported)
    requires b == s.(wnd := b.wnd, wndMax := b.wndMax, buf := b.buf, lastack := b.lastack, reported := b.reported)
    requires b.wnd == a.wnd && b.wndMax == a.wndMax && b.buf == a.buf
    requires b.lastack == a.lastack && b.reported == a.reported
    ensures b == s.(wnd := a.wnd, wndMax := a.wndMax, buf := a.buf, lastack := a.lastack, reported := a.reported)
  {
  }

  lemma NoneCovered(u: Pcb, s: Pcb, ackno: int)
    requires WaitingFor(u, s) && ackno < u.unacked[0].End()
    ensures Covered(u.unacked, ackno) == 0 && Covered(u.unsent, ackno) == 0
    ensures Covered(s.unacked, ackno) == 0 && Covered(s.unsent, ackno) == 0
  {
    WaitingWaits(u, s);
    NothingUnsent(u, ackno);
    assert s.unsent[0] == u.unacked[0];
  }

  /** An acknowledgement of more than was sent, or of no whole segment. */
  lemma AckNothing(s: Pcb, ackno: int, update: bool, wnd: nat, acked: nat) returns (r: Pcb)
    requires ackno <= s.nxt ==> Covered(s.unacked, ackno) == 0 && Covered(s.unsent, ackno) == 0
    requires acked == if s.lastack < ackno <= s.nxt then ackno - s.lastack else 0
    ensures r == Ack(s, ackno, update, wnd)
    ensures r == if ackno <= s.nxt then Release(Window(s, update, wnd), acked, 0, 0, 0, 0) else Window(s, update, wnd)
  {
    if ackno <= s.nxt {
      NoPrefix(s.unacked);
      NoPrefix(s.unsent);
      AckIsRelease(s, ackno, update, wnd, Window(s, update, wnd), acked, 0, 0, 0, 0);
    }
    r := Ack(s, ackno, update, wnd);
  }

  /** Only the window and the counters have changed. */
  lemma NothingMoved(s: Pcb, update: bool, wnd: nat, acked: nat, some: bool, r: Pcb)
    requires !some ==> acked == 0
    requires r == if some then Release(Window(s, update, wnd), acked, 0, 0, 0, 0) else Window(s, update, wnd)
    ensures r == s.(wnd := r.wnd, wndMax := r.wndMax, buf := s.buf + acked, lastack := s.lastack + acked,
                    reported := s.reported + acked)
    ensures r.wnd == (if update then wnd else s.wnd) && r.wndMax == if s.wndMax < r.wnd then r.wnd else s.wndMax
  {
    ReleaseNothing(Window(s, update, wnd), acked);
  }

  lemma NoPrefix(q: seq<Seg>)
    ensures Bufs(q[..0]) == 0 && Fins(q[..0]) == 0
  {
  }

  lemma AckIsRelease(s: Pcb, ackno: int, update: bool, wnd: nat, s0: Pcb, acked: nat, k: nat, j: nat, bufs: nat,
                     fins: nat)
    requires ackno <= s.nxt && s0 == Window(s, update, wnd)
    requires acked == if ackno > s.lastack then ackno - s.lastack else 0
    requires k == (if ackno > s.lastack then Covered(s.unacked, ackno) else 0) && j == Covered(s.unsent, ackno)
    requires bufs == Bufs(s.unacked[..k]) + Bufs(s.unsent[..j]) && fins == Fins(s.unacked[..k]) + Fins(s.unsent[..j])
    ensures k <= |s0.unacked| && j <= |s0.unsent|
    ensures Ack(s, ackno, update, wnd) == Release(s0, acked, k, j, bufs, fins)
  {
  }

  lemma RexmitMoved(u: Pcb, v: Pcb)
    requires v == u.(wnd := v.wnd, wndMax := v.wndMax, buf := v.buf, lastack := v.lastack, reported := v.reported)
    ensures Rexmit(v) ==
              Rexmit(u).(wnd := v.wnd, wndMax := v.wndMax, buf := v.buf, lastack := v.lastack, reported := v.reported)
  {
  }

  lemma NothingUnsent(u: Pcb, ackno: int)
    requires LineInv(u) && u.unacked != [] && ackno < u.unacked[0].End()
    ensures Covered(u.unsent, ackno) == 0
  {
    TilesAt(u.unacked, From(u), Mid(u), 0);
    if u.unsent != [] {
      TilesAt(u.unsent, Mid(u), To(u), 0);
    }
  }

  lemma ReleaseNothing(s: Pcb, acked: nat)
    ensures Bufs(s.unacked[..0]) + Bufs(s.unsent[..0]) == 0 && Fins(s.unacked[..0]) + Fins(s.unsent[..0]) == 0
    ensures Release(s, acked, 0, 0, 0, 0) ==
              s.(buf := s.buf + acked, lastack := s.lastack + acked, reported := s.reported + acked)
  {
    assert s.unacked[0..] == s.unacked && s.unsent[0..] == s.unsent;
  }

  /** An acknowledgement of the waiting segment: it does not matter that it waited. */
  lemma AckBeyond(u: Pcb, s: Pcb, ackno: int, update: bool, wnd: nat)
    requires WaitingFor(u, s) && u.unacked[0].End() <= ackno <= u.nxt
    ensures Ack(s, ackno, update, wnd) == Ack(u, ackno, update, wnd)
  {
    WaitingWaits(u, s);
    assert StartsWith(u.unacked, u.lastack);
    AckCovers(u, s, u.unacked[0], u.unacked[1..], ackno, update, wnd);
  }

  lemma AckCovers(u: Pcb, s: Pcb, first: Seg, rest: seq<Seg>, ackno: int, update: bool, wnd: nat)
    requires u.unacked == [first] + rest && s == u.(unacked := rest, unsent := [first] + u.unsent)
    requires u.lastack < first.End() <= ackno <= u.nxt && (u.unsent == [] ==> u.oversize == 0)
    ensures Ack(s, ackno, update, wnd) == Ack(u, ackno, update, wnd)
  {
    CoveredFirst(first, rest, ackno, u.unacked);
    CoveredFirst(first, u.unsent, ackno, s.unsent);
    SameRest(Ack(s, ackno, update, wnd), Ack(u, ackno, update, wnd));
  }

  /** A covered segment in front of a queue. */
  lemma CoveredFirst(first: Seg, rest: seq<Seg>, ackno: int, q: seq<Seg>)
    requires q == [first] + rest && first.End() <= ackno
    ensures var n := Covered(rest, ackno);
      && Covered(q, ackno) == n + 1 && q[n + 1..] == rest[n..]
      && Bufs(q[..n + 1]) == first.clen + Bufs(rest[..n])
      && Fins(q[..n + 1]) == (if first.fin then 1 else 0) + Fins(rest[..n])
  {
    var n := Covered(rest, ackno);
    assert q[1..] == rest && q[..n + 1][1..] == rest[..n];
  }

  lemma AckWaiting(u: Pcb, s: Pcb, ackno: int, update: bool, wnd: nat)
    requires WaitingFor(u, s)
    ensures Sound(Ack(s, ackno, update, wnd))
  {
    AckKeeps(u, ackno, update, wnd);
    if u.unacked[0].End() <= ackno <= u.nxt {
      AckBeyond(u, s, ackno, update, wnd);
    } else {
      var a, b := AckBefore(u, s, ackno, update, wnd);
      assert WaitingFor(a, b);
    }
  }

  lemma TuneWaiting(u: Pcb, s: Pcb, cwnd: nat, noDelay: bool)
    requires WaitingFor(u, s)
    ensures Sound(Tune(s, cwnd, noDelay))
  {
    var v := Tune(u, cwnd, noDelay);
    TuneKeeps(u, cwnd, noDelay);
    RexmitApart(u, v);
    assert WaitingFor(v, Tune(s, cwnd, noDelay));
  }

  // ---------------------------------------------------------------------------------------------
  // Runs
  // ---------------------------------------------------------------------------------------------

  /** Calls of the application, output, timeouts, acknowledgements, changes of the congestion window and fast
      retransmissions. */
  datatype Event =
    | WriteEvent(data: seq<byte>, copy: bool, mem: nat, extra: nat)
    | FinEvent(mem: nat)
    | OutputEvent(ackNow: bool)
    | RtoEvent(ackNow: bool)
    | AckEvent(ackno: int, update: bool, wnd: nat)
    | TuneEvent(cwnd: nat, noDelay: bool)
    | FastEvent(cwnd: nat, ackNow: bool)

  function Tune(s: Pcb, cwnd: nat, noDelay: bool): Pcb {
    s.(cwnd := cwnd, noDelay := noDelay)
  }

  /** While a retransmitted segment waits, the steps that would break the order are left out (see
      `WriteAfterRexmitExactly`, `CloseAfterRexmitExactly`, `TimeoutAfterRexmitExactly`), and so is a second
      fast retransmission. */
  ghost predicate Enabled(s: Pcb, e: Event) {
    match e
    case WriteEvent(data, copy, mem, extra) =>
      && (WriteChecks(s, |data|) == ErrOk && WriteFits(s, data, copy, mem) ==> ExtraOk(s, data, copy, extra))
      && (Waits(s) && |s.unsent| == 1 && |s.unsent[0].data| < MssLocal(s) ==>
            data == [] || Write(s, data, copy, mem, extra).1 != ErrOk)
    case FinEvent(_) => s.open && (Waits(s) ==> |s.unsent| > 1)
    case RtoEvent(_) => !Waits(s)
    case FastEvent(cwnd, _) => s.unacked != [] && !Waits(s)
    case _ => true
  }

  ghost function Apply(s: Pcb, e: Event): Pcb {
    match e
    case WriteEvent(data, copy, mem, extra) => Write(s, data, copy, mem, extra).0
    case FinEvent(mem) => SendFin(s, mem).0
    case OutputEvent(ackNow) => OutputNow(s, ackNow)
    case RtoEvent(ackNow) => if s.unacked == [] then s else OutputNow(RexmitRto(s), ackNow)
    case AckEvent(ackno, update, wnd) => Ack(s, ackno, update, wnd)
    case TuneEvent(cwnd, noDelay) => Tune(s, cwnd, noDelay)
    case FastEvent(cwnd, ackNow) => OutputNow(Rexmit(Tune(s, cwnd, true)), ackNow)
  }

  lemma TuneKeeps(s: Pcb, cwnd: nat, noDelay: bool)
    requires Inv(s)
    ensures Inv(Tune(s, cwnd, noDelay))
  {
  }

  lemma FastKeeps(s: Pcb, cwnd: nat)
    requires Inv(s) && s.unacked != [] && CanSend(Rexmit(Tune(s, cwnd, true)))
    ensures Output(Rexmit(Tune(s, cwnd, true))) == Output(Tune(s, cwnd, true))
    ensures Inv(Output(Rexmit(Tune(s, cwnd, true))))
  {
    var t := Tune(s, cwnd, true);
    TuneKeeps(s, cwnd, true);
    RexmitThenSend(t);
    assert SendLoop(Rexmit(t)) == SendLoop(t);
    OutputKeeps(t);
  }

  /** A fast retransmission sends its segment or lets it wait. */
  lemma FastSound(s: Pcb, cwnd: nat, ackNow: bool)
    requires Inv(s) && s.unacked != []
    ensures Sound(OutputNow(Rexmit(Tune(s, cwnd, true)), ackNow))
  {
    var u := Tune(s, cwnd, true);
    TuneKeeps(s, cwnd, true);
    if CanSend(Rexmit(u)) {
      FastKeeps(s, cwnd);
    } else if |u.unacked| == 1 {
      RexmitIsRto(u);
      OutputKeeps(Rexmit(u));
    } else {
      OutputWaiting(u, Rexmit(u));
      assert WaitingFor(u, Rexmit(u));
    }
  }

  lemma ApplyInv(s: Pcb, e: Event)
    requires Inv(s) && Enabled(s, e)
    ensures Sound(Apply(s, e))
  {
    match e
    case WriteEvent(data, copy, mem, extra) => WriteKeeps(s, data, copy, mem, extra);
    case FinEvent(mem) => SendFinKeeps(s, mem);
    case OutputEvent(ackNow) => OutputKeeps(s);
    case RtoEvent(ackNow) => RexmitRtoKeeps(s); OutputKeeps(RexmitRto(s));
    case AckEvent(ackno, update, wnd) => AckKeeps(s, ackno, update, wnd);
    case TuneEvent(cwnd, noDelay) => TuneKeeps(s, cwnd, noDelay);
    case FastEvent(cwnd, ackNow) => FastSound(s, cwnd, ackNow);
  }

  lemma ApplyWaiting(u: Pcb, s: Pcb, e: Event)
    requires WaitingFor(u, s) && Enabled(s, e)
    ensures Sound(Apply(s, e))
  {
    WaitingWaits(u, s);
    match e
    case WriteEvent(data, copy, mem, extra) =>
      if u.unsent != [] || |u.unacked[0].data| >= MssLocal(u) {
        WriteWaiting(u, s, data, copy, mem, extra);
      } else if data == [] {
        EmptyWaiting(u, s, copy, mem, extra);
      } else {
        FailedWaiting(u, s);
      }
    case FinEvent(mem) => FinWaiting(u, s, mem);
    case OutputEvent(ackNow) => OutputWaiting(u, s);
    case RtoEvent(ackNow) =>
    case AckEvent(ackno, update, wnd) => AckWaiting(u, s, ackno, update, wnd);
    case TuneEvent(cwnd, noDelay) => TuneWaiting(u, s, cwnd, noDelay);
    case FastEvent(cwnd, ackNow) =>
  }

  lemma ApplyKeeps(s: Pcb, e: Event)
    requires Sound(s) && Enabled(s, e)
    ensures Sound(Apply(s, e))
  {
    if Inv(s) {
      ApplyInv(s, e);
    } else {
      var u :| WaitingFor(u, s);
      ApplyWaiting(u, s, e);
    }
  }

  ghost predicate Legal(s: Pcb, events: seq<Event>)
    decreases |events|
  {
    events != [] ==> Enabled(s, events[0]) && Legal(Apply(s, events[0]), events[1..])
  }

  ghost function Exec(s: Pcb, events: seq<Event>): Pcb
    decreases |events|
  {
    if events == [] then s else Exec(Apply(s, events[0]), events[1..])
  }

  // ---------------------------------------------------------------------------------------------
  // The handshake
  // ---------------------------------------------------------------------------------------------

  /** Where the SYN of a connection is: not yet made, to be sent, sent, acknowledged. */
  datatype Syn = NoSyn | Unsent(seqno: int) | Unacked(seqno: int) | Acked

  /** The counters of a connection that is opened by tcp_connect (active) or for an incoming SYN. */
  datatype Opening = Opening(active: bool, lbb: int, buf: int, qlen: nat, nxt: int, lastack: int, syn: Syn)

  /** tcp_alloc, and for an active open the assignments of tcp_connect. */
  function Allocated(active: bool, iss: int): Opening {
    var at := if active then iss - 1 else iss;
    Opening(active, at, TCP_SND_BUF, 0, iss, at, NoSyn)
  }

  /** The SYN is queued (tcp_enqueue_flags), sent (tcp_output), put back by a timeout or by tcp_rexmit, and
      acknowledged: in SYN_SENT by its own number, in SYN_RCVD by tcp_receive within what was sent. */
  datatype OpenEvent = Enqueue(mem: nat) | SendSyn | Requeue | Acknowledge(ackno: int)

  function Open(h: Opening, e: OpenEvent): Opening {
    match e
    case Enqueue(mem) =>
      if h.syn != NoSyn || h.qlen >= TCP_SND_QUEUELEN || h.buf == 0 || mem < 2 then h
      else h.(lbb := h.lbb + 1, buf := h.buf - 1, qlen := h.qlen + 1, syn := Unsent(h.lbb))
    case SendSyn =>
      if !h.syn.Unsent? then h
      else h.(syn := Unacked(h.syn.seqno), nxt := if h.nxt < h.syn.seqno + 1 then h.syn.seqno + 1 else h.nxt)
    case Requeue =>
      if !h.syn.Unacked? then h else h.(syn := Unsent(h.syn.seqno))
    case Acknowledge(ackno) =>
      if h.active then
        if h.syn.Unacked? && ackno == h.syn.seqno + 1
        then h.(buf := h.buf + 1, lastack := ackno, qlen := h.qlen - (if h.qlen > 0 then 1 else 0), syn := Acked)
        else h
      else if (h.syn.Unacked? || h.syn.Unsent?) && h.lastack + 1 <= ackno <= h.nxt
      then h.(buf := h.buf + (ackno - h.lastack), lastack := ackno, qlen := h.qlen - (if h.qlen > 0 then 1 else 0),
              syn := Acked)
      else h
  }

  function OpenAll(h: Opening, events: seq<OpenEvent>): Opening
    decreases |events|
  {
    if events == [] then h else OpenAll(Open(h, events[0]), events[1..])
  }

  ghost predicate OpenInv(h: Opening, iss: int) {
    var at := if h.active then iss - 1 else iss;
    && h.buf + (h.lbb - h.lastack) == TCP_SND_BUF
    && match h.syn
       case NoSyn => h.lbb == h.lastack == at && h.qlen == 0 && h.nxt == iss
       case Unsent(seqno) => seqno == at == h.lastack && h.lbb == at + 1 && h.qlen == 1 && iss <= h.nxt <= at + 1
       case Unacked(seqno) => seqno == at == h.lastack && h.lbb == at + 1 == h.nxt && h.qlen == 1
       case Acked => h.lbb == h.lastack == h.nxt == at + 1 && h.qlen == 0
  }

  lemma {:induction false} OpenAllKeeps(h: Opening, events: seq<OpenEvent>, iss: int)
    requires OpenInv(h, iss)
    ensures OpenInv(OpenAll(h, events), iss) && OpenAll(h, events).active == h.active
    decreases |events|
  {
    if events != [] {
      OpenAllKeeps(Open(h, events[0]), events[1..], iss);
    }
  }

  /** Through every handshake, active or passive, with failures, losses and repetitions, the space left is the
      buffer less what is unacknowledged, the SYN included; and once the SYN is acknowledged the counters are
      those of an established connection. */
  lemma HandshakeAccounts(active: bool, iss: int, events: seq<OpenEvent>, mss: nat, wnd: nat, cwnd: nat)
    ensures var h := OpenAll(Allocated(active, iss), events);
      && h.buf + (h.lbb - h.lastack) == TCP_SND_BUF
      && (h.syn.Acked? ==>
            var s := Established(if active then iss else iss + 1, mss, wnd, cwnd);
            h.lbb == s.lbb && h.buf == s.buf && h.qlen == s.qlen && h.nxt == s.nxt && h.lastack == s.lastack)
  {
    OpenAllKeeps(Allocated(active, iss), events, iss);
  }

  /** A connection just established. */
  function Established(base: int, mss: nat, wnd: nat, cwnd: nat): Pcb {
    Pcb([], [], base, TCP_SND_BUF, 0, base, base, 0, mss, wnd, wnd, cwnd, true, false, false, false, [], base, 0)
  }

  /** The data of the writes that were accepted, by their result codes alone. */
  ghost function Accepted(s: Pcb, events: seq<Event>): seq<byte>
    decreases |events|
  {
    if events == [] then []
    else
      AcceptedBy(s, events[0]) + Accepted(Apply(s, events[0]), events[1..])
  }

  lemma {:induction false} ExecKeeps(s: Pcb, events: seq<Event>)
    requires Sound(s) && Legal(s, events)
    ensures Sound(Exec(s, events))
    decreases |events|
  {
    if events != [] {
      ApplyKeeps(s, events[0]);
      ExecKeeps(Apply(s, events[0]), events[1..]);
    }
  }

  lemma SendLoopStream(s: Pcb)
    ensures SendLoop(s).stream == s.stream && SendLoop(s).base == s.base
    decreases |s.unsent|
  {
    if CanSend(s) {
      SendLoopStream(SendOne(s));
    }
  }

  lemma OutputStream(s: Pcb, ackNow: bool)
    ensures OutputNow(s, ackNow).stream == s.stream && OutputNow(s, ackNow).base == s.base
  {
    SendLoopStream(s);
  }

  lemma ApplyStream(s: Pcb, e: Event)
    ensures Apply(s, e).base == s.base
    ensures Apply(s, e).stream == s.stream + AcceptedBy(s, e)
  {
    match e
    case OutputEvent(ackNow) => OutputStream(s, ackNow);
    case RtoEvent(ackNow) => OutputStream(RexmitRto(s), ackNow);
    case FastEvent(cwnd, ackNow) => OutputStream(Rexmit(Tune(s, cwnd, true)), ackNow);
    case _ =>
  }

  /** What an event adds to the accepted bytes. */
  ghost function AcceptedBy(s: Pcb, e: Event): seq<byte> {
    if e.WriteEvent? && Write(s, e.data, e.copy, e.mem, e.extra).1 == ErrOk then e.data else []
  }

  lemma {:induction false} ExecStream(s: Pcb, events: seq<Event>)
    ensures Exec(s, events).base == s.base && Exec(s, events).stream == s.stream + Accepted(s, events)
    decreases |events|
  {
    if events != [] {
      var r, rest := Apply(s, events[0]), events[1..];
      ApplyStream(s, events[0]);
      ExecStream(r, rest);
      Regroup(s.stream, AcceptedBy(s, events[0]), Accepted(r, rest));
    }
  }

  /** What is so of a connection in either state: each queued byte is where it was written and in one place,
      in segments of at most the local MSS; the queue length counts the buffers; the space left is the buffer
      less what is unacknowledged; exactly the acknowledged bytes have been reported. */
  ghost predicate Accounted(s: Pcb) {
    && InLine(s)
    && AllOk(s.unacked, s.stream, s.base, MssLocal(s)) && AllOk(s.unsent, s.stream, s.base, MssLocal(s))
    && s.qlen == Bufs(s.unacked) + Bufs(s.unsent)
    && 0 <= s.buf && s.buf + s.lbb - s.lastack == TCP_SND_BUF
    && s.reported == Min(s.lastack - s.base, |s.stream|)
  }

  lemma InvAccounted(s: Pcb)
    requires Inv(s)
    ensures Accounted(s)
  {
    LineInLine(s);
  }

  lemma WaitingAccounted(u: Pcb, s: Pcb)
    requires WaitingFor(u, s)
    ensures Accounted(s)
  {
    WaitingWaits(u, s);
    RexmitInLine(u);
    var first, rest := u.unacked[0], u.unacked[1..];
    assert u.unacked == [first] + rest;
    assert SegOk(first, u.stream, u.base) && |first.data| <= MssLocal(u);
    assert s.unsent[1..] == u.unsent;
  }

  /** Over every run of a connection: no queued byte is in the wrong place or in two places, and the counters
      are right. Either the two queues lie one behind the other, from the segment with the last
      acknowledgement to the end of the stream, or they do but for the first segment, which waits to be sent
      again. */
  lemma SendInvariant(start: Pcb, events: seq<Event>, s: Pcb, sent: seq<byte>)
    requires start == Established(start.base, start.mss, start.wnd, start.cwnd) && Legal(start, events)
    requires s == Exec(start, events) && sent == Accepted(start, events)
    ensures s.stream == sent && s.base == start.base && Accounted(s)
    ensures LineInv(s) || exists u :: LineInv(u) && u.stream == sent && u.unacked != [] && s == Rexmit(u)
    ensures !Waits(s) ==> LineInv(s)
  {
    ExecKeeps(start, events);
    ExecStream(start, events);
    if Inv(s) {
      InvAccounted(s);
    } else {
      var u :| WaitingFor(u, s);
      WaitingAccounted(u, s);
      WaitingWaits(u, s);
      assert LineInv(u) && u.stream == sent;
    }
  }

  // ---------------------------------------------------------------------------------------------
  // The program
  // ---------------------------------------------------------------------------------------------

  lemma ChunksStep(data: seq<byte>, pos: nat, seqno: int, mss: nat, clen: nat, n: nat)
    requires mss > 0 && pos < |data| && n == Min(|data| - pos, mss)
    ensures Chunks(data[pos..], seqno, mss, clen) ==
              [Seg(seqno, data[pos..pos + n], false, clen)] + Chunks(data[pos + n..], seqno + n, mss, clen)
  {
    assert data[pos..][..n] == data[pos..pos + n] && data[pos..][n..] == data[pos + n..];
  }

  lemma QueueOneMore(queue: seq<Seg>, rest: seq<Seg>, all: seq<Seg>, seg: Seg, later: seq<Seg>)
    requires queue + rest == all && rest == [seg] + later
    ensures rest[1..] == later && (queue + [seg]) + later == all
  {
  }

  /** n new segments, each checked in turn. */
  predicate Affordable(n: nat, queuelen: nat, mem: nat, bufs: nat, allocs: nat) {
    n > 0 ==>
      && allocs <= mem && queuelen + bufs <= TCP_SND_QUEUELEN
      && Affordable(n - 1, queuelen + bufs, mem - allocs, bufs, allocs)
  }

  lemma {:induction false} AffordableExactly(n: nat, queuelen: nat, mem: nat, bufs: nat, allocs: nat)
    ensures Affordable(n, queuelen, mem, bufs, allocs) <==>
              n > 0 ==> queuelen + bufs * n <= TCP_SND_QUEUELEN && allocs * n <= mem
    decreases n
  {
    if n > 0 {
      OneMore(bufs, n);
      OneMore(allocs, n);
      if allocs <= mem && queuelen + bufs <= TCP_SND_QUEUELEN {
        AffordableExactly(n - 1, queuelen + bufs, mem - allocs, bufs, allocs);
      }
    }
  }

  lemma OneMore(a: nat, n: nat)
    requires n > 0
    ensures a * n == a + a * (n - 1) && a * (n - 1) >= 0
  {
  }

  /** What the third phase of tcp_write makes of the data from `start` on, if it can. */
  ghost predicate PhaseThree(ok: bool, queue: seq<Seg>, data: seq<byte>, start: nat, lbb: int, mss: nat, copy: bool,
                             queuelen: nat, mem: nat)
    requires start <= |data|
  {
    if start == |data| then ok && queue == []
    else if mss == 0 then !ok
    else
      var all := Chunks(data[start..], lbb + start, mss, SegBufs(copy));
      (ok <==> Affordable(|all|, queuelen, mem, SegBufs(copy), SegAllocs(copy))) && (ok ==> queue == all)
  }

  /** The third phase of tcp_write. */
  method MakeSegments(data: seq<byte>, start: nat, lbb: int, mss: nat, copy: bool, queuelen: nat, mem: nat)
    returns (ok: bool, queue: seq<Seg>)
    requires start <= |data|
    ensures PhaseThree(ok, queue, data, start, lbb, mss, copy, queuelen, mem)
  {
    queue := [];
    if mss == 0 {
      ok := MakeEmptySegments(data, start, SegBufs(copy), SegAllocs(copy), queuelen, mem);
    } else {
      ok, queue := MakeFullSegments(data, start, lbb, mss, SegBufs(copy), SegAllocs(copy), queuelen, mem);
      if start == |data| {
        assert data[start..] == [];
      }
    }
  }

  method MakeFullSegments(data: seq<byte>, start: nat, lbb: int, mss: nat, bufs: nat, allocs: nat, queuelen: nat,
                          mem: nat)
    returns (ok: bool, queue: seq<Seg>)
    requires start <= |data| && mss > 0
    ensures ok <==> Affordable(|Chunks(data[start..], lbb + start, mss, bufs)|, queuelen, mem, bufs, allocs)
    ensures ok ==> queue == Chunks(data[start..], lbb + start, mss, bufs)
  {
    queue := [];
    var pos, len, left := start, queuelen, mem;
    ghost var all := Chunks(data[start..], lbb + start, mss, bufs);
    ghost var rest := all;
    while pos < |data|
      invariant start <= pos <= |data| && rest == Chunks(data[pos..], lbb + pos, mss, bufs) && queue + rest == all
      invariant len >= 0 && left >= 0
      invariant Affordable(|rest|, len, left, bufs, allocs) <==> Affordable(|all|, queuelen, mem, bufs, allocs)
    {
      var n := Min(|data| - pos, mss);
      ChunksStep(data, pos, lbb + pos, mss, bufs, n);
      QueueOneMore(queue, rest, all, Seg(lbb + pos, data[pos..pos + n], false, bufs),
                   Chunks(data[pos + n..], lbb + (pos + n), mss, bufs));
      if left < allocs || len + bufs > TCP_SND_QUEUELEN {
        return false, [];
      }
      left := left - allocs;
      len := len + bufs;
      queue := queue + [Seg(lbb + pos, data[pos..pos + n], false, bufs)];
      pos := pos + n;
      rest := rest[1..];
    }
    assert data[pos..] == [];
    ok := true;
  }

  /** Without a window the loop makes empty segments until it fails. */
  method MakeEmptySegments(data: seq<byte>, start: nat, bufs: nat, allocs: nat, queuelen: nat, mem: nat)
    returns (ok: bool)
    requires start <= |data| && bufs > 0
    ensures ok <==> start == |data|
  {
    var len, left := queuelen, mem;
    while start < |data|
      invariant left >= 0
      decreases TCP_SND_QUEUELEN + 1 - len
    {
      if left < allocs || len + bufs > TCP_SND_QUEUELEN {
        return false;
      }
      left := left - allocs;
      len := len + bufs;
    }
    return true;
  }

  lemma InsertStep(q: seq<Seg>, seg: Seg, i: nat)
    requires i < |q| && q[i].seqno < seg.seqno
    ensures q[..i] + InsertSorted(q[i..], seg) == q[..i + 1] + InsertSorted(q[i + 1..], seg)
  {
    var rest, tail := q[i..], q[i + 1..];
    assert rest[1..] == tail;
    PassOne(q, i, InsertSorted(tail, seg));
  }

  lemma PassOne(q: seq<Seg>, i: nat, later: seq<Seg>)
    requires i < |q|
    ensures q[..i] + ([q[i]] + later) == q[..i + 1] + later
  {
  }

  /** Insertion in order, as tcp_output and tcp_rexmit do it. */
  method InsertInOrder(q: seq<Seg>, seg: Seg) returns (r: seq<Seg>)
    ensures r == InsertSorted(q, seg)
  {
    var i := 0;
    while i < |q| && q[i].seqno < seg.seqno
      invariant i <= |q| && q[..i] + InsertSorted(q[i..], seg) == InsertSorted(q, seg)
    {
      InsertStep(q, seg, i);
      i := i + 1;
    }
    r := q[..i] + ([seg] + q[i..]);
  }

  /** The three phases together are the write. */
  lemma WriteOutcome(s: Pcb, data: seq<byte>, copy: bool, mem: nat, extra: nat, chained: nat, ok: bool, queue: seq<Seg>)
    requires WriteChecks(s, |data|) == ErrOk && Joined(s, |data|) <= |data|
    requires chained == (if Chain(s, |data|) > 0 then 1 else 0) && chained <= mem
    requires PhaseThree(ok, queue, data, Joined(s, |data|), s.lbb, MssLocal(s), copy, s.qlen + chained, mem - chained)
    ensures WriteFits(s, data, copy, mem) <==> ok
    ensures ok ==> (Joined(s, |data|) < |data| ==> MssLocal(s) > 0) && More(s, data, copy) == queue
  {
    if Joined(s, |data|) < |data| && MssLocal(s) > 0 {
      AffordableExactly(|NewSegs(s, data, copy)|, s.qlen + chained, mem - chained, SegBufs(copy), SegAllocs(copy));
      ChunksTile(data[Joined(s, |data|)..], s.lbb + Joined(s, |data|), MssLocal(s), SegBufs(copy));
    }
  }

  /** The space behind the last segment after a write. */
  function Over(s: Pcb, len: nat, copy: bool, extra: nat, queue: seq<Seg>): int {
    if copy && (Chain(s, len) > 0 || queue != []) then extra
    else if s.unsent == [] then 0 else s.oversize - Tail(s, len)
  }

  lemma WrittenIs(s: Pcb, data: seq<byte>, copy: bool, extra: nat, chained: nat, queue: seq<Seg>)
    requires Joined(s, |data|) <= |data| && (Joined(s, |data|) < |data| ==> MssLocal(s) > 0)
    requires More(s, data, copy) == queue && chained == (if Chain(s, |data|) > 0 then 1 else 0)
    ensures Over(s, |data|, copy, extra, queue) >= 0
    ensures Written(s, data, copy, extra) ==
              s.(unsent := Extended(s, data) + queue, lbb := s.lbb + |data|, buf := s.buf - |data|,
                 qlen := s.qlen + chained + SegBufs(copy) * |queue|,
                 oversize := Over(s, |data|, copy, extra, queue), stream := s.stream + data)
  {
  }

  /** The sending part of struct tcp_pcb. */
  class Sender {
    const mss: nat
    ghost const base: int
    var unacked: seq<Seg>
    var unsent: seq<Seg>
    var sndLbb: int
    var sndBuf: int
    var sndQueuelen: nat
    var sndNxt: int
    var lastack: int
    var unsentOversize: nat
    var sndWnd: nat
    var sndWndMax: nat
    var cwnd: nat
    var open: bool
    var memErr: bool
    var finFlag: bool
    var noDelay: bool
    ghost var stream: seq<byte>
    ghost var reported: int

    ghost function Model(): Pcb
      reads this
    {
      Pcb(unacked, unsent, sndLbb, sndBuf, sndQueuelen, sndNxt, lastack, unsentOversize, mss, sndWnd, sndWndMax, cwnd,
          open, memErr, finFlag, noDelay, stream, base, reported)
    }

    constructor (iss: int, mss: nat, wnd: nat, cwnd: nat)
      ensures Model() == Established(iss, mss, wnd, cwnd) && Inv(Model())
    {
      this.mss, base := mss, iss;
      unacked, unsent, sndLbb, sndBuf, sndQueuelen, sndNxt, lastack := [], [], iss, TCP_SND_BUF, 0, iss, iss;
      unsentOversize, sndWnd, sndWndMax, this.cwnd := 0, wnd, wnd, cwnd;
      open, memErr, finFlag, noDelay, stream, reported := true, false, false, false, [], 0;
      new;
    }

    function LocalMss(): (m: nat)
      reads this
      ensures m == MssLocal(Model())
    {
      if mss < sndWndMax / 2 then mss else sndWndMax / 2
    }

    /** tcp_write_checks. */
    method Checks(len: nat) returns (err: Error)
      modifies this`memErr
      ensures err == WriteChecks(old(Model()), len)
      ensures Model() == if err == ErrMem then old(Model()).(memErr := true) else old(Model())
    {
      if !open {
        return ErrConn;
      } else if len == 0 {
        return ErrOk;
      }
      if len > sndBuf || sndQueuelen >= TCP_SND_QUEUELEN {
        memErr := true;
        return ErrMem;
      }
      return ErrOk;
    }

    /** The first two phases of tcp_write: what goes into the last unsent segment. */
    method JoinLast(len: nat) returns (used: nat, seglen: nat)
      ensures used == Tail(Model(), len) && seglen == Chain(Model(), len) && used + seglen <= len
    {
      used, seglen := 0, 0;
      if unsent != [] {
        var last := unsent[|unsent| - 1];
        var space := LocalMss() - |last.data|;
        if unsentOversize > 0 {
          used := Min(unsentOversize, len);
          space := space - used;
        }
        if used < len && space > 0 && |last.data| > 0 {
          seglen := Min(space, len - used);
        }
      }
    }

    /** tcp_write. */
    method TcpWrite(data: seq<byte>, copy: bool, mem: nat, extra: nat) returns (err: Error)
      modifies this
      ensures (Model(), err) == Write(old(Model()), data, copy, mem, extra)
    {
      err := Checks(|data|);
      if err == ErrOk {
        err := WriteChecked(data, copy, mem, extra);
      }
    }

    /** tcp_write after its checks. */
    method WriteChecked(data: seq<byte>, copy: bool, mem: nat, extra: nat) returns (err: Error)
      requires WriteChecks(Model(), |data|) == ErrOk
      modifies this
      ensures err == if WriteFits(old(Model()), data, copy, mem) then ErrOk else ErrMem
      ensures Model() ==
                if err == ErrOk then Written(old(Model()), data, copy, extra) else old(Model()).(memErr := true)
    {
      var used, seglen := JoinLast(|data|);
      var chained := if seglen > 0 then 1 else 0;
      if mem < chained {
        memErr := true;
        return ErrMem;
      }
      var ok, queue :=
        MakeSegments(data, used + seglen, sndLbb, LocalMss(), copy, sndQueuelen + chained, mem - chained);
      WriteOutcome(Model(), data, copy, mem, extra, chained, ok, queue);
      if !ok {
        memErr := true;
        return ErrMem;
      }
      CommitWrite(data, copy, extra, used, seglen, queue);
      return ErrOk;
    }

    method CommitWrite(data: seq<byte>, copy: bool, extra: nat, used: nat, seglen: nat, queue: seq<Seg>)
      requires used == Tail(Model(), |data|) && seglen == Chain(Model(), |data|) && used + seglen <= |data|
      requires (Joined(Model(), |data|) < |data| ==> MssLocal(Model()) > 0) && More(Model(), data, copy) == queue
      modifies this
      ensures Model() == Written(old(Model()), data, copy, extra)
    {
      ghost var s := Model();
      WrittenIs(s, data, copy, extra, if seglen > 0 then 1 else 0, queue);
      Commit(data, copy, extra, used, seglen, queue, Extended(s, data), Over(s, |data|, copy, extra, queue));
    }

    /** The end of tcp_write: `extended` is what becomes of the unsent queue, `over` of the unused space. */
    method Commit(data: seq<byte>, copy: bool, extra: nat, used: nat, seglen: nat, queue: seq<Seg>,
                  ghost extended: seq<Seg>, ghost over: int)
      requires used == Tail(Model(), |data|) && seglen == Chain(Model(), |data|) && used + seglen <= |data|
      requires extended == Extended(Model(), data) && over == Over(Model(), |data|, copy, extra, queue) >= 0
      modifies this
      ensures Model() == old(Model()).(unsent := extended + queue, lbb := old(sndLbb) + |data|,
                                       buf := old(sndBuf) - |data|,
                                       qlen := old(sndQueuelen) + (if seglen > 0 then 1 else 0)
                                               + SegBufs(copy) * |queue|,
                                       oversize := over, stream := old(stream) + data)
    {
      var chained := if seglen > 0 then 1 else 0;
      ExtendLast(data, copy, extra, used, seglen, queue != []);
      assert unsent == extended && unsentOversize == over;
      AppendSegments(queue, |data|, chained, SegBufs(copy));
      stream := stream + data;
    }

    method ExtendLast(data: seq<byte>, copy: bool, extra: nat, used: nat, seglen: nat, more: bool)
      requires used == Tail(Model(), |data|) && seglen == Chain(Model(), |data|) && used + seglen <= |data|
      modifies this`unsent, this`unsentOversize
      ensures unsent == Extended(old(Model()), data)
      ensures unsentOversize ==
                if copy && (seglen > 0 || more) then extra
                else if old(unsent) == [] then 0 else old(unsentOversize) - used
    {
      if unsent != [] {
        var k := |unsent| - 1;
        unsentOversize := unsentOversize - used;
        unsent := unsent[..k] + [unsent[k].(data := unsent[k].data + data[..used + seglen],
                                            clen := unsent[k].clen + if seglen > 0 then 1 else 0)];
      } else {
        unsentOversize := 0;
      }
      if copy && (seglen > 0 || more) {
        unsentOversize := extra;
      }
    }

    method AppendSegments(queue: seq<Seg>, len: nat, chained: nat, bufs: nat)
      modifies this`unsent, this`sndLbb, this`sndBuf, this`sndQueuelen
      ensures unsent == old(unsent) + queue && sndLbb == old(sndLbb) + len && sndBuf == old(sndBuf) - len
      ensures sndQueuelen == old(sndQueuelen) + chained + bufs * |queue|
    {
      unsent := unsent + queue;
      sndLbb, sndBuf, sndQueuelen := sndLbb + len, sndBuf - len, sndQueuelen + chained + bufs * |queue|;
    }

    /** One turn of the loop of tcp_output. */
    method SendFirst()
      requires unsent != []
      modifies this
      ensures Model() == SendOne(old(Model()))
    {
      var seg := unsent[0];
      unsent := unsent[1..];
      if sndNxt < seg.End() {
        sndNxt := seg.End();
      }
      if seg.Len() > 0 {
        if unacked != [] && seg.seqno < unacked[|unacked| - 1].seqno {
          unacked := InsertInOrder(unacked, seg);
        } else {
          unacked := unacked + [seg];
        }
      }
    }

    predicate MaySend()
      reads this
      ensures MaySend() == CanSend(Model())
    {
      && unsent != [] && unsent[0].seqno - lastack + |unsent[0].data| <= Min(sndWnd, cwnd)
      && (unacked == [] || noDelay || |unsent| > 1 || |unsent[0].data| >= mss || sndBuf == 0 ||
          sndQueuelen >= TCP_SND_QUEUELEN || memErr || finFlag)
    }

    /** tcp_output. */
    method TcpOutput(ackNow: bool)
      modifies this
      ensures Model() == OutputNow(old(Model()), ackNow)
    {
      if ackNow && (unsent == [] || unsent[0].seqno - lastack + |unsent[0].data| > Min(sndWnd, cwnd)) {
        return;
      }
      SendUnsent();
    }

    /** Its loop and what follows. */
    method SendUnsent()
      modifies this
      ensures Model() == Output(old(Model()))
    {
      while MaySend()
        invariant SendLoop(Model()) == SendLoop(old(Model()))
        decreases |unsent|
      {
        SendFirst();
      }
      if unsent == [] {
        unsentOversize := 0;
      }
      memErr := false;
    }

    /** tcp_send_fin and the change of state after it. */
    method TcpSendFin(mem: nat) returns (err: Error)
      modifies this
      ensures (Model(), err) == SendFin(old(Model()), mem)
    {
      if unsent != [] && !unsent[|unsent| - 1].fin {
        var k := |unsent| - 1;
        unsent := unsent[k := unsent[k].(fin := true)];
        finFlag, open := true, false;
        return ErrOk;
      }
      err := EnqueueFlags(mem);
    }

    /** tcp_enqueue_flags(TCP_FIN). */
    method EnqueueFlags(mem: nat) returns (err: Error)
      modifies this`unsent, this`unsentOversize, this`sndLbb, this`sndBuf, this`sndQueuelen, this`finFlag
      modifies this`open, this`memErr
      ensures (Model(), err) == EnqueueFin(old(Model()), mem)
    {
      if sndQueuelen >= TCP_SND_QUEUELEN {
        memErr := true;
        return ErrMem;
      }
      if sndBuf == 0 {
        return ErrMem;
      }
      if mem < 2 {
        memErr := true;
        return ErrMem;
      }
      AppendFin();
      return ErrOk;
    }

    method AppendFin()
      modifies this`unsent, this`unsentOversize, this`sndLbb, this`sndBuf, this`sndQueuelen, this`finFlag, this`open
      ensures unsent == old(unsent) + [Seg(old(sndLbb), [], true, 1)] && unsentOversize == 0 && finFlag && !open
      ensures sndLbb == old(sndLbb) + 1 && sndBuf == old(sndBuf) - 1 && sndQueuelen == old(sndQueuelen) + 1
    {
      unsent := unsent + [Seg(sndLbb, [], true, 1)];
      unsentOversize := 0;
      sndLbb, sndBuf, sndQueuelen := sndLbb + 1, sndBuf - 1, sndQueuelen + 1;
      finFlag, open := true, false;
    }

    /** tcp_rexmit_rto. */
    method TcpRexmitRto(ackNow: bool)
      modifies this
      ensures Model() == if old(unacked) == [] then old(Model()) else OutputNow(RexmitRto(old(Model())), ackNow)
    {
      if unacked == [] {
        return;
      }
      unsent := unacked + unsent;
      unacked := [];
      TcpOutput(ackNow);
    }

    /** tcp_rexmit. */
    method TcpRexmit()
      modifies this
      ensures Model() == Rexmit(old(Model()))
    {
      if unacked != [] {
        var seg := unacked[0];
        unacked := unacked[1..];
        unsent := InsertInOrder(unsent, seg);
        if unsent[|unsent| - 1] == seg {
          unsentOversize := 0;
        }
      }
    }

    /** Either loop of the acknowledgement part of tcp_receive, on its queue. */
    method DropCovered(q: seq<Seg>, ackno: int) returns (n: nat, bufs: nat, fins: nat)
      ensures n == Covered(q, ackno) && bufs == Bufs(q[..n]) && fins == Fins(q[..n])
    {
      n, bufs, fins := 0, 0, 0;
      assert q[0..] == q;
      while n < |q| && q[n].End() <= ackno
        invariant n <= |q| && n + Covered(q[n..], ackno) == Covered(q, ackno)
        invariant bufs == Bufs(q[..n]) && fins == Fins(q[..n])
      {
        assert q[n..][1..] == q[n + 1..];
        assert q[..n + 1] == q[..n] + [q[n]] && [q[n]][1..] == [];
        BufsAppend(q[..n], [q[n]], q[..n + 1]);
        FinsAppend(q[..n], [q[n]], q[..n + 1]);
        bufs := bufs + q[n].clen;
        fins := fins + if q[n].fin then 1 else 0;
        n := n + 1;
      }
    }

    /** The acknowledgement part of tcp_receive: what is reported as sent. */
    method ReceiveAck(ackno: int, update: bool, wnd: nat) returns (acked: nat)
      requires Inv(Model())
      modifies this
      ensures Model() == Ack(old(Model()), ackno, update, wnd) && Inv(Model()) && acked == reported - old(reported)
    {
      AckKeeps(Model(), ackno, update, wnd);
      acked := ProcessAck(ackno, update, wnd);
    }

    method ProcessAck(ackno: int, update: bool, wnd: nat) returns (acked: nat)
      modifies this
      ensures Model() == Ack(old(Model()), ackno, update, wnd) && acked == reported - old(reported)
    {
      UpdateWindow(update, wnd);
      if ackno > sndNxt {
        return 0;
      }
      var total := if ackno > lastack then ackno - lastack else 0;
      var k, j, bufs, fins := CountCovered(ackno);
      acked := ReleaseSegments(total, k, j, bufs, fins);
    }

    method ReleaseSegments(total: nat, k: nat, j: nat, bufs: nat, fins: nat) returns (acked: nat)
      requires k <= |unacked| && j <= |unsent|
      modifies this`unacked, this`unsent, this`sndQueuelen, this`unsentOversize, this`sndBuf, this`lastack
      modifies this`reported
      ensures Model() == Release(old(Model()), total, k, j, bufs, fins) && acked == reported - old(reported)
    {
      ReleaseQueues(k, j, bufs);
      acked := if total > fins then total - fins else 0;
      sndBuf, lastack, reported := sndBuf + total, lastack + total, reported + acked;
    }

    method UpdateWindow(update: bool, wnd: nat)
      modifies this`sndWnd, this`sndWndMax
      ensures Model() == Window(old(Model()), update, wnd)
    {
      if update {
        sndWnd := wnd;
      }
      if sndWndMax < sndWnd {
        sndWndMax := sndWnd;
      }
    }

    /** The two loops. */
    method CountCovered(ackno: int) returns (k: nat, j: nat, bufs: nat, fins: nat)
      ensures k == (if ackno > lastack then Covered(unacked, ackno) else 0) && j == Covered(unsent, ackno)
      ensures bufs == Bufs(unacked[..k]) + Bufs(unsent[..j]) && fins == Fins(unacked[..k]) + Fins(unsent[..j])
    {
      k, bufs, fins := 0, 0, 0;
      if ackno > lastack {
        k, bufs, fins := DropCovered(unacked, ackno);
      } else {
        assert unacked[..0] == [];
      }
      var moreBufs, moreFins;
      j, moreBufs, moreFins := DropCovered(unsent, ackno);
      bufs, fins := bufs + moreBufs, fins + moreFins;
    }

    method ReleaseQueues(k: nat, j: nat, bufs: nat)
      requires k <= |unacked| && j <= |unsent|
      modifies this`unacked, this`unsent, this`sndQueuelen, this`unsentOversize
      ensures unacked == old(unacked)[k..] && unsent == old(unsent)[j..]
      ensures sndQueuelen == if bufs <= old(sndQueuelen) then old(sndQueuelen) - bufs else 0
      ensures unsentOversize == if j > 0 && j == |old(unsent)| then 0 else old(unsentOversize)
    {
      sndQueuelen := if bufs <= sndQueuelen then sndQueuelen - bufs else 0;
      if j > 0 && j == |unsent| {
        unsentOversize := 0;
      }
      unacked, unsent := unacked[k..], unsent[j..];
    }
  }
}
