/** The receive side of one TCP connection: the payload part of tcp_receive and
    tcp_oos_insert_segment (dp/net/tcp_in.c), and the receive-window bookkeeping of
    tcp_update_rcv_ann_wnd and tcp_recved (dp/net/tcp.c).

    Sequence numbers are unbounded here; `SeqCompareAgrees` says when the 32-bit comparisons of
    the source give the same answers.  The main results are `ReassemblySafe` and
    `ReassemblyComplete` (what is passed up is the longest received prefix of the stream of the
    peer), and `EdgeNeverRetreats`. */
module TcpReceive {
  import opened Common
  import opened Words

  /** A received segment without SYN: sequence number, payload and FIN flag. */
  datatype Seg = Seg(seqno: nat, data: seq<byte>, fin: bool)
  {
    /** TCP_TCPLEN: a FIN takes one sequence number. */
    function TcpLen(): nat {
      |data| + if fin then 1 else 0
    }
    /** One past the last payload byte. */
    function End(): nat {
      seqno + |data|
    }
  }

  // ---------------------------------------------------------------------------------------------
  // Sequence comparison
  // ---------------------------------------------------------------------------------------------

  const TWO31: int := 0x8000_0000

  /** (s32_t)((u32_t)a - (u32_t)b) */
  function SignedDiff(a: int, b: int): int {
    var d := (a - b) % TWO32;
    if d >= TWO31 then d - TWO32 else d
  }

  /** The difference the TCP_SEQ_* macros look at is that of the unwrapped numbers exactly if it fits in 32
      bits; then the macros tell the order of these. */
  lemma SeqCompareAgrees(x: int, y: int)
    ensures SignedDiff(x % TWO32, y % TWO32) == x - y <==> -TWO31 <= x - y < TWO31
    ensures -TWO31 <= x - y < TWO31 ==>
              && (SignedDiff(x % TWO32, y % TWO32) < 0 <==> x < y)
              && (SignedDiff(x % TWO32, y % TWO32) <= 0 <==> x <= y)
  {
    WrappedDiff(x, y);
  }

  lemma WrappedDiff(x: int, y: int)
    ensures (x % TWO32 - y % TWO32) % TWO32 == (x - y) % TWO32
  {
    var k := x / TWO32 - y / TWO32;
    assert x % TWO32 - y % TWO32 == (x - y) - TWO32 * k;
    ModShift(x - y, k);
  }

  lemma ModShift(a: int, k: int)
    ensures (a - TWO32 * k) % TWO32 == a % TWO32
  {
    assert a == TWO32 * (a / TWO32) + a % TWO32;
    assert a - TWO32 * k == TWO32 * (a / TWO32 - k) + a % TWO32;
    ModUnique(a - TWO32 * k, a / TWO32 - k, a % TWO32);
  }

  lemma ModUnique(a: int, q: int, r: int)
    requires a == TWO32 * q + r && 0 <= r < TWO32
    ensures a % TWO32 == r
  {
    assert TWO32 * (a / TWO32 - q) == r - a % TWO32;
  }

  /** Up to a whole revolution beyond that, the macros tell the opposite. */
  lemma SeqCompareBreaks(x: int, y: int)
    ensures TWO31 <= x - y < TWO32 ==> SignedDiff(x % TWO32, y % TWO32) < 0
    ensures TWO31 < y - x < TWO32 ==> SignedDiff(x % TWO32, y % TWO32) > 0
  {
    WrappedDiff(x, y);
    ModShift(x - y, -1);
  }

  // ---------------------------------------------------------------------------------------------
  // The operations as functions
  // ---------------------------------------------------------------------------------------------

  const TCP_WND: int := 2048 * 1460

  /** The receive fields of a tcp_pcb, and what has been passed up so far.  `wnd` is rcv_wnd read as
      a signed number, so an overrun shows as a negative window. */
  datatype Rx = Rx(nxt: nat, wnd: int, annWnd: int, annEdge: int, mss: nat,
                   ooseq: seq<Seg>, delivered: seq<byte>, fin: bool)

  /** tcp_update_rcv_ann_wnd. */
  function UpdateAnnounced(s: Rx): Rx {
    if s.nxt + s.wnd >= s.annEdge + Min(TCP_WND / 2, s.mss) then s.(annWnd := s.wnd)
    else if s.nxt > s.annEdge then s.(annWnd := 0)
    else s.(annWnd := s.annEdge - s.nxt)
  }

  /** How much further the edge would be if the window were announced now, if that is worth while. */
  function Inflation(s: Rx): int {
    if s.nxt + s.wnd >= s.annEdge + Min(TCP_WND / 2, s.mss) then s.nxt + s.wnd - s.annEdge else 0
  }

  /** A segment goes out carrying the announced window. */
  function Announce(s: Rx): Rx {
    s.(annEdge := s.nxt + s.annWnd)
  }

  /** tcp_recved; the comparison is unsigned, so a window that is still negative becomes the full one. */
  function Recved(s: Rx, len: nat): Rx {
    UpdateAnnounced(s.(wnd := if 0 <= s.wnd + len <= TCP_WND then s.wnd + len else TCP_WND))
  }

  /** Bytes below rcv_nxt are cut off the front. */
  function TrimFront(seg: Seg, nxt: nat): Seg {
    if seg.seqno + 1 <= nxt <= seg.seqno + seg.TcpLen() - 1
    then Seg(nxt, seg.data[nxt - seg.seqno..], seg.fin) else seg
  }

  /** A segment running past the right window edge loses its tail and its FIN. */
  function ClipRight(seg: Seg, right: int): Seg
    requires seg.seqno < right
  {
    if seg.seqno + seg.TcpLen() > right then Seg(seg.seqno, seg.data[..right - seg.seqno], false) else seg
  }

  /** Drop the queued segments that `seg` covers, taking over their FIN.  `len` is the length the
      source compares with: the payload length in tcp_oos_insert_segment, TCP_TCPLEN in tcp_receive. */
  function Absorb(seg: Seg, q: seq<Seg>, withFin: bool): (r: (Seg, seq<Seg>))
    ensures r.0.seqno == seg.seqno && r.0.data == seg.data
    ensures |r.1| <= |q|
    decreases |q|
  {
    if q != [] && seg.seqno + (if withFin then seg.TcpLen() else |seg.data|) >= q[0].End()
    then Absorb(if q[0].fin then seg.(fin := true) else seg, q[1..], withFin)
    else (seg, q)
  }

  /** Cut the tail of `seg` at `at`. */
  function TrimTo(seg: Seg, at: nat): Seg
    requires seg.seqno <= at
  {
    if seg.End() > at then seg.(data := seg.data[..at - seg.seqno]) else seg
  }

  /** tcp_oos_insert_segment: `seg` replaces what it covers of `next` and is trimmed to the rest. */
  function Splice(seg: Seg, next: seq<Seg>): seq<Seg> {
    if seg.fin then [seg]
    else
      var (c, rest) := Absorb(seg, next, false);
      if rest != [] && c.End() > rest[0].seqno && rest[0].seqno >= c.seqno
      then [TrimTo(c, rest[0].seqno)] + rest
      else [c] + rest
  }

  /** The walk over a non-empty ooseq queue from element `i`, whose predecessors did not match. */
  function Place(q: seq<Seg>, i: nat, seg: Seg, right: int): seq<Seg>
    requires i < |q| && seg.seqno < right
    decreases |q| - i
  {
    if seg.seqno == q[i].seqno then
      if |seg.data| > |q[i].data| then q[..i] + Splice(seg, q[i..]) else q
    else if i == 0 && seg.seqno < q[0].seqno then Splice(seg, q)
    else if i > 0 && q[i - 1].seqno + 1 <= seg.seqno <= q[i].seqno - 1 then
      q[..i - 1] + [TrimTo(q[i - 1], seg.seqno)] + Splice(seg, q[i..])
    else if i + 1 == |q| then
      if seg.seqno > q[i].seqno && !q[i].fin
      then q[..i] + [TrimTo(q[i], seg.seqno)] + [ClipRight(seg, right)]
      else q
    else Place(q, i + 1, seg, right)
  }

  /** Queue an out-of-order segment. */
  function Enqueue(q: seq<Seg>, seg: Seg, right: int): seq<Seg>
    requires seg.seqno < right
  {
    if q == [] then [seg] else Place(q, 0, seg, right)
  }

  /** The in-order segment against the queue: FIN empties it, otherwise covered segments go and the
      segment is trimmed to the first that stays. */
  function MergeInOrder(seg: Seg, q: seq<Seg>): (Seg, seq<Seg>) {
    if q == [] || seg.fin then (seg, [])
    else
      var (c, rest) := Absorb(seg, q, true);
      if rest != [] && rest[0].seqno >= c.seqno && c.seqno + c.TcpLen() > rest[0].seqno
      then (TrimTo(c, rest[0].seqno), rest)
      else (c, rest)
  }

  /** Pass one in-sequence segment up. */
  function Deliver(s: Rx, seg: Seg): Rx {
    UpdateAnnounced(s.(nxt := seg.seqno + seg.TcpLen(), wnd := s.wnd - seg.TcpLen(),
                       delivered := s.delivered + seg.data, fin := s.fin || seg.fin))
  }

  /** Pass up queued segments that have become in-sequence. */
  function Drain(s: Rx): Rx
    decreases |s.ooseq|
  {
    if s.ooseq != [] && s.ooseq[0].seqno == s.nxt
    then Drain(Deliver(s, s.ooseq[0]).(ooseq := s.ooseq[1..]))
    else s
  }

  function InOrder(s: Rx, seg: Seg): Rx
    requires seg.seqno == s.nxt && 0 < s.wnd
  {
    var (c, rest) := MergeInOrder(ClipRight(seg, s.nxt + s.wnd), s.ooseq);
    Drain(Deliver(s, c).(ooseq := rest))
  }

  /** A segment with payload or FIN arrives.  `copied` says whether tcp_seg_copy found memory,
      `acked` whether the immediate ACK for an out-of-order segment could be sent. */
  function Receive(s: Rx, seg: Seg, copied: bool, acked: bool): Rx {
    if seg.TcpLen() == 0 || s.fin then s
    else
      var t := TrimFront(seg, s.nxt);
      if !(s.nxt <= t.seqno <= s.nxt + s.wnd - 1) then (if acked then Announce(s) else s)
      else if t.seqno == s.nxt then InOrder(s, t)
      else
        var s1 := if acked then Announce(s) else s;
        if copied then s1.(ooseq := Enqueue(s1.ooseq, t, s1.nxt + s1.wnd)) else s1
  }

  // ---------------------------------------------------------------------------------------------
  // The peer's stream and the queue invariant
  // ---------------------------------------------------------------------------------------------

  /** Everything the peer sends: byte i has sequence number base + i, the FIN follows the last one. */
  datatype Stream = Stream(base: nat, bytes: seq<byte>)
  {
    function End(): nat {
      base + |bytes|
    }
  }

  /** A segment the peer could have cut from its stream. */
  ghost predicate CutFrom(seg: Seg, st: Stream) {
    && st.base <= seg.seqno && seg.End() <= st.End()
    && seg.data == st.bytes[seg.seqno - st.base..seg.End() - st.base]
    && (seg.fin ==> seg.End() == st.End())
  }

  /** A stored segment: not empty, inside a stream ending at `limit`, with a FIN only there. */
  predicate Fits(seg: Seg, limit: nat) {
    seg.TcpLen() > 0 && seg.End() <= limit && (seg.fin ==> seg.End() == limit)
  }

  /** The queue is strictly sorted and free of overlap, and a FIN can only be on the last segment. */
  ghost predicate Ordered(q: seq<Seg>, limit: nat) {
    && (forall i | 0 <= i < |q| :: Fits(q[i], limit))
    && (forall i, j | 0 <= i < j < |q| :: Before(q[i], q[j]))
  }

  predicate Before(a: Seg, b: Seg) {
    a.seqno < b.seqno && a.End() <= b.seqno && !a.fin
  }

  ghost predicate AllCut(q: seq<Seg>, st: Stream) {
    forall i | 0 <= i < |q| :: CutFrom(q[i], st)
  }

  /** Sequence number `p` is held by segment `seg`. */
  predicate Holds(seg: Seg, p: int) {
    seg.seqno <= p < seg.End()
  }

  /** Sequence number `p` is held somewhere in the queue. */
  predicate Queued(q: seq<Seg>, p: int) {
    q != [] && (Holds(q[0], p) || Queued(q[1..], p))
  }

  lemma PrefixIsCut(seg: Seg, st: Stream, n: nat, fin: bool)
    requires CutFrom(seg, st) && n <= |seg.data| && (fin ==> seg.seqno + n == st.End())
    ensures CutFrom(Seg(seg.seqno, seg.data[..n], fin), st)
  {
  }

  lemma SuffixIsCut(seg: Seg, st: Stream, n: nat)
    requires CutFrom(seg, st) && n <= |seg.data|
    ensures CutFrom(Seg(seg.seqno + n, seg.data[n..], seg.fin), st)
  {
  }

  lemma QueuedCons(seg: Seg, q: seq<Seg>, p: int)
    ensures Queued([seg] + q, p) <==> Holds(seg, p) || Queued(q, p)
  {
    assert ([seg] + q)[1..] == q;
  }

  lemma {:induction false} QueuedAppend(a: seq<Seg>, b: seq<Seg>, p: int)
    ensures Queued(a + b, p) <==> Queued(a, p) || Queued(b, p)
    decreases |a|
  {
    if a == [] {
      assert a + b == b;
    } else {
      assert (a + b)[1..] == a[1..] + b;
      QueuedAppend(a[1..], b, p);
    }
  }

  /** Queued bytes lie between the first segment and the end of the stream. */
  lemma {:induction false} QueuedRange(q: seq<Seg>, limit: nat, p: int)
    requires Ordered(q, limit) && Queued(q, p)
    ensures q[0].seqno <= p < limit
    decreases |q|
  {
    assert Fits(q[0], limit);
    if !Holds(q[0], p) {
      OrderedParts(q, limit, 1);
      QueuedRange(q[1..], limit, p);
      assert q[0].seqno < q[1].seqno;
    }
  }

  lemma OrderedParts(q: seq<Seg>, limit: nat, n: nat)
    requires Ordered(q, limit) && n <= |q|
    ensures Ordered(q[n..], limit) && Ordered(q[..n], limit)
  {
  }

  lemma {:induction false} AbsorbSound(seg: Seg, q: seq<Seg>, withFin: bool, limit: nat)
    requires Fits(seg, limit) && Ordered(q, limit) && (seg.fin ==> q == [])
    ensures var (c, rest) := Absorb(seg, q, withFin);
      && Fits(c, limit) && Ordered(rest, limit) && (c.fin ==> rest == [])
      && (rest != [] ==> c.End() < rest[0].End())
    decreases |q|
  {
    if q != [] && seg.End() >= q[0].End() {
      OrderedParts(q, limit, 1);
      assert Fits(q[0], limit);
      var seg1 := if q[0].fin then seg.(fin := true) else seg;
      AbsorbSound(seg1, q[1..], withFin, limit);
    }
  }

  /** Nothing is lost or invented by an absorption. */
  lemma {:induction false} AbsorbHolds(seg: Seg, q: seq<Seg>, withFin: bool, limit: nat, p: int)
    requires Fits(seg, limit) && Ordered(q, limit) && (seg.fin ==> q == [])
    requires q != [] ==> seg.seqno <= q[0].seqno
    ensures var (c, rest) := Absorb(seg, q, withFin);
            Holds(seg, p) || Queued(q, p) <==> Holds(c, p) || Queued(rest, p)
    decreases |q|
  {
    if q != [] && seg.End() >= q[0].End() {
      OrderedParts(q, limit, 1);
      assert Fits(q[0], limit);
      var seg1 := if q[0].fin then seg.(fin := true) else seg;
      if |q| > 1 {
        assert q[0].seqno < q[1].seqno;
      }
      AbsorbHolds(seg1, q[1..], withFin, limit, p);
    }
  }

  /** What survives the absorption starts strictly after the absorbing segment. */
  lemma {:induction false} RestIsLater(seg: Seg, q: seq<Seg>, withFin: bool, limit: nat)
    requires Ordered(q, limit) && GoesBefore(seg, q)
    ensures var rest := Absorb(seg, q, withFin).1;
            rest != [] ==> seg.seqno < rest[0].seqno
    decreases |q|
  {
    if q != [] && seg.seqno + (if withFin then seg.TcpLen() else |seg.data|) >= q[0].End() {
      OrderedParts(q, limit, 1);
      if |q| > 1 {
        assert q[0].seqno < q[1].seqno;
      }
      RestIsLater(if q[0].fin then seg.(fin := true) else seg, q[1..], withFin, limit);
    }
  }

  ghost predicate GoesBefore(seg: Seg, next: seq<Seg>) {
    next != [] ==>
      && seg.seqno <= next[0].seqno
      && (seg.seqno == next[0].seqno ==> |seg.data| > |next[0].data|)
  }

  lemma OrderedCons(head: Seg, rest: seq<Seg>, limit: nat)
    requires Fits(head, limit) && Ordered(rest, limit)
    requires rest != [] ==> Before(head, rest[0])
    ensures Ordered([head] + rest, limit)
  {
    OrderedAppend([head], rest, limit);
  }

  lemma OrderedAppend(a: seq<Seg>, b: seq<Seg>, limit: nat)
    requires Ordered(a, limit) && Ordered(b, limit)
    requires a != [] && b != [] ==> Before(a[|a| - 1], b[0])
    ensures Ordered(a + b, limit)
  {
    var r := a + b;
    forall i, j | 0 <= i < j < |r|
      ensures Before(r[i], r[j])
    {
      if j < |a| {
        assert Before(a[i], a[j]);
      } else if i >= |a| {
        assert Before(b[i - |a|], b[j - |a|]);
      } else {
        assert i < |a| - 1 ==> Before(a[i], a[|a| - 1]);
        assert j > |a| ==> Before(b[0], b[j - |a|]);
      }
    }
  }

  /** How the source builds the head of a spliced queue. */
  lemma SpliceShape(seg: Seg, next: seq<Seg>, limit: nat)
    requires Fits(seg, limit) && !seg.fin && Ordered(next, limit) && GoesBefore(seg, next)
    ensures var (c, rest) := Absorb(seg, next, false);
      && Fits(c, limit) && Ordered(rest, limit) && (c.fin ==> rest == [])
      && (rest != [] ==> c.seqno < rest[0].seqno && c.End() < rest[0].End())
      && Splice(seg, next) == [if rest != [] then TrimTo(c, rest[0].seqno) else c] + rest
  {
    AbsorbSound(seg, next, false, limit);
    RestIsLater(seg, next, false, limit);
  }

  /** Splicing a segment in front of later ones keeps the order ... */
  lemma SpliceOrdered(seg: Seg, next: seq<Seg>, limit: nat)
    requires Fits(seg, limit) && Ordered(next, limit) && GoesBefore(seg, next)
    ensures var r := Splice(seg, next); Ordered(r, limit) && r != [] && r[0].seqno == seg.seqno
  {
    if !seg.fin {
      SpliceShape(seg, next, limit);
      var (c, rest) := Absorb(seg, next, false);
      OrderedCons(if rest != [] then TrimTo(c, rest[0].seqno) else c, rest, limit);
    }
  }

  /** ... and the result holds exactly the bytes of both. */
  lemma SpliceHolds(seg: Seg, next: seq<Seg>, limit: nat, p: int)
    requires Fits(seg, limit) && Ordered(next, limit) && GoesBefore(seg, next)
    ensures Queued(Splice(seg, next), p) <==> Holds(seg, p) || Queued(next, p)
  {
    if seg.fin {
      assert Splice(seg, next) == [seg] + [];
      QueuedCons(seg, [], p);
      if Queued(next, p) {
        QueuedRange(next, limit, p);
      }
    } else {
      SpliceShape(seg, next, limit);
      AbsorbHolds(seg, next, false, limit, p);
      var (c, rest) := Absorb(seg, next, false);
      var head := if rest != [] then TrimTo(c, rest[0].seqno) else c;
      QueuedCons(head, rest, p);
      if Holds(c, p) && !Holds(head, p) {
        assert Holds(rest[0], p);
      }
    }
  }

  /** The queue with element `j` cut at `at`, followed by `b`. */
  function CutAfter(q: seq<Seg>, j: nat, at: nat, b: seq<Seg>): seq<Seg>
    requires j < |q| && q[j].seqno <= at
  {
    q[..j] + [TrimTo(q[j], at)] + b
  }

  lemma CutAfterOrdered(q: seq<Seg>, j: nat, at: nat, b: seq<Seg>, limit: nat)
    requires Ordered(q, limit) && j < |q| && q[j].seqno < at && !q[j].fin
    requires Ordered(b, limit) && (b != [] ==> b[0].seqno == at)
    ensures Ordered(CutAfter(q, j, at, b), limit)
    ensures CutAfter(q, j, at, b)[0].seqno == q[0].seqno
  {
    var t := TrimTo(q[j], at);
    OrderedParts(q, limit, j);
    assert Fits(q[j], limit);
    assert j > 0 ==> q[j - 1].seqno < q[j].seqno && q[j - 1].End() <= q[j].seqno && !q[j - 1].fin;
    OrderedAppend(q[..j], [t], limit);
    OrderedAppend(q[..j] + [t], b, limit);
  }

  /** Walking the queue keeps it sorted, overlap-free and starting no earlier. */
  lemma {:induction false} PlaceOrdered(q: seq<Seg>, i: nat, seg: Seg, right: int, limit: nat)
    requires i < |q| && seg.seqno < right && Ordered(q, limit) && Fits(seg, limit)
    requires i > 0 ==> q[i - 1].seqno < seg.seqno
    ensures Ordered(Place(q, i, seg, right), limit) && Place(q, i, seg, right) != []
    ensures Place(q, i, seg, right)[0].seqno == Min(q[0].seqno, seg.seqno)
    decreases |q| - i
  {
    assert i > 0 ==> q[0].seqno <= q[i - 1].seqno;
    OrderedParts(q, limit, i);
    if seg.seqno == q[i].seqno {
      if |seg.data| > |q[i].data| {
        SpliceOrdered(seg, q[i..], limit);
        assert i > 0 ==> q[i - 1].End() <= q[i].seqno && !q[i - 1].fin;
        OrderedAppend(q[..i], Splice(seg, q[i..]), limit);
      }
    } else if i == 0 && seg.seqno < q[0].seqno {
      SpliceOrdered(seg, q, limit);
    } else if i > 0 && q[i - 1].seqno + 1 <= seg.seqno <= q[i].seqno - 1 {
      SpliceOrdered(seg, q[i..], limit);
      assert !q[i - 1].fin;
      CutAfterOrdered(q, i - 1, seg.seqno, Splice(seg, q[i..]), limit);
      assert Place(q, i, seg, right) == CutAfter(q, i - 1, seg.seqno, Splice(seg, q[i..]));
    } else if i + 1 == |q| {
      if seg.seqno > q[i].seqno && !q[i].fin {
        CutAfterOrdered(q, i, seg.seqno, [ClipRight(seg, right)], limit);
        assert Place(q, i, seg, right) == CutAfter(q, i, seg.seqno, [ClipRight(seg, right)]);
      }
    } else {
      PlaceOrdered(q, i + 1, seg, right, limit);
    }
  }

  // ---------------------------------------------------------------------------------------------
  // Which bytes an arrival adds to the queue, and which it loses
  // ---------------------------------------------------------------------------------------------

  /** The arriving segment lies strictly inside a queued segment that does not carry the FIN. */
  ghost predicate Inside(q: seq<Seg>, seg: Seg) {
    exists i | 0 <= i < |q| :: StrictlyWithin(q[i], seg)
  }

  predicate StrictlyWithin(outer: Seg, seg: Seg) {
    outer.seqno < seg.seqno && seg.End() < outer.End() && !outer.fin
  }

  lemma {:induction false} QueuedAt(q: seq<Seg>, i: nat, p: int)
    requires i < |q| && Holds(q[i], p)
    ensures Queued(q, p)
    decreases i
  {
    if i > 0 {
      QueuedAt(q[1..], i - 1, p);
    }
  }

  lemma CutAfterHolds(q: seq<Seg>, j: nat, at: nat, b: seq<Seg>, p: int)
    requires j < |q| && q[j].seqno <= at
    ensures Queued(CutAfter(q, j, at, b), p) <==>
              Queued(q[..j], p) || Holds(TrimTo(q[j], at), p) || Queued(b, p)
    ensures Queued(q, p) <==> Queued(q[..j], p) || Holds(q[j], p) || Queued(q[j + 1..], p)
  {
    var t := TrimTo(q[j], at);
    QueuedAppend(q[..j] + [t], b, p);
    QueuedAppend(q[..j], [t], p);
    QueuedCons(t, [], p);
    assert [t] + [] == [t];
    assert q == q[..j] + ([q[j]] + q[j + 1..]);
    QueuedAppend(q[..j], [q[j]] + q[j + 1..], p);
    QueuedCons(q[j], q[j + 1..], p);
  }

  /** Cutting q[j] at an arrival that reaches at least as far loses nothing. */
  lemma CutAfterKeeps(q: seq<Seg>, j: nat, seg: Seg, b: seq<Seg>, p: int)
    requires j < |q| && q[j].seqno < seg.seqno && !q[j].fin && !StrictlyWithin(q[j], seg)
    requires Queued(b, p) <==> Holds(seg, p) || Queued(q[j + 1..], p)
    ensures Queued(CutAfter(q, j, seg.seqno, b), p) <==> Queued(q, p) || Holds(seg, p)
  {
    CutAfterHolds(q, j, seg.seqno, b, p);
  }

  lemma SpliceAtHolds(q: seq<Seg>, i: nat, seg: Seg, limit: nat, p: int)
    requires i < |q| && Ordered(q, limit) && Fits(seg, limit) && GoesBefore(seg, q[i..])
    ensures Queued(q[..i] + Splice(seg, q[i..]), p) <==> Queued(q, p) || Holds(seg, p)
  {
    OrderedParts(q, limit, i);
    SpliceHolds(seg, q[i..], limit, p);
    QueuedAppend(q[..i], Splice(seg, q[i..]), p);
    assert q == q[..i] + q[i..];
    QueuedAppend(q[..i], q[i..], p);
  }

  lemma PlaceBetweenHolds(q: seq<Seg>, i: nat, seg: Seg, right: int, limit: nat, p: int)
    requires 0 < i < |q| && seg.seqno < right && Ordered(q, limit) && Fits(seg, limit) && !Inside(q, seg)
    requires q[i - 1].seqno + 1 <= seg.seqno <= q[i].seqno - 1
    ensures Queued(Place(q, i, seg, right), p) <==> Queued(q, p) || Holds(seg, p)
  {
    var spliced := Splice(seg, q[i..]);
    assert !StrictlyWithin(q[i - 1], seg) && Before(q[i - 1], q[i]);
    OrderedParts(q, limit, i);
    SpliceHolds(seg, q[i..], limit, p);
    CutAfterKeeps(q, i - 1, seg, spliced, p);
    assert Place(q, i, seg, right) == CutAfter(q, i - 1, seg.seqno, spliced);
  }

  lemma PlaceLastHolds(q: seq<Seg>, i: nat, seg: Seg, right: int, p: int)
    requires i + 1 == |q| && q[i].seqno < seg.seqno && seg.seqno + seg.TcpLen() <= right && seg.seqno < right
    requires !q[i].fin && !StrictlyWithin(q[i], seg)
    ensures Queued(Place(q, i, seg, right), p) <==> Queued(q, p) || Holds(seg, p)
  {
    QueuedCons(seg, [], p);
    assert [seg] + [] == [seg] && q[i + 1..] == [];
    CutAfterKeeps(q, i, seg, [seg], p);
    assert Place(q, i, seg, right) == CutAfter(q, i, seg.seqno, [seg]);
  }

  /** An arrival that fits the window and is not inside a queued segment adds its bytes and loses none. */
  lemma {:induction false} PlaceHolds(q: seq<Seg>, i: nat, seg: Seg, right: int, limit: nat, p: int)
    requires i < |q| && seg.seqno < right && Ordered(q, limit) && Fits(seg, limit)
    requires i > 0 ==> q[i - 1].seqno < seg.seqno
    requires seg.seqno + seg.TcpLen() <= right && !Inside(q, seg)
    ensures Queued(Place(q, i, seg, right), p) <==> Queued(q, p) || Holds(seg, p)
    decreases |q| - i
  {
    assert Fits(q[i], limit);
    assert !StrictlyWithin(q[i], seg);
    if seg.seqno == q[i].seqno {
      if |seg.data| > |q[i].data| {
        SpliceAtHolds(q, i, seg, limit, p);
      } else if Holds(seg, p) {
        QueuedAt(q, i, p);
      }
    } else if i == 0 && seg.seqno < q[0].seqno {
      SpliceHolds(seg, q, limit, p);
    } else if i > 0 && q[i - 1].seqno + 1 <= seg.seqno <= q[i].seqno - 1 {
      PlaceBetweenHolds(q, i, seg, right, limit, p);
    } else if i + 1 == |q| {
      if seg.seqno > q[i].seqno && !q[i].fin {
        PlaceLastHolds(q, i, seg, right, p);
      } else if Holds(seg, p) {
        QueuedAt(q, i, p);
      }
    } else {
      PlaceHolds(q, i + 1, seg, right, limit, p);
    }
  }

  /** Cutting q[j] at an arrival strictly inside it loses the byte after the arrival. */
  lemma CutAfterLoses(q: seq<Seg>, j: nat, seg: Seg, b: seq<Seg>, limit: nat)
    requires Ordered(q, limit) && j < |q| && StrictlyWithin(q[j], seg) && !Queued(b, seg.End())
    ensures !Queued(CutAfter(q, j, seg.seqno, b), seg.End())
  {
    CutAfterHolds(q, j, seg.seqno, b, seg.End());
    forall k | 0 <= k < j
      ensures q[..j][k].End() <= q[j].seqno
    {
      assert q[k].End() <= q[j].seqno;
    }
    NotQueuedAbove(q[..j], q[j].seqno, seg.End());
  }

  /** An arrival inside a queued segment cuts that segment short: its first byte past the arrival is
      gone. */
  lemma {:induction false} PlaceLoses(q: seq<Seg>, i: nat, seg: Seg, right: int, limit: nat, j: nat)
    requires i < |q| && seg.seqno < right && Ordered(q, limit) && Fits(seg, limit)
    requires i > 0 ==> q[i - 1].seqno < seg.seqno
    requires j < |q| && StrictlyWithin(q[j], seg) && i <= j + 1
    ensures !Queued(Place(q, i, seg, right), seg.End())
    decreases |q| - i
  {
    if i == j + 1 {
      assert q[j].End() <= q[i].seqno;
      var b := Splice(seg, q[i..]);
      OrderedParts(q, limit, i);
      NotQueuedBelow(q[i..], limit, seg.End());
      SpliceHolds(seg, q[i..], limit, seg.End());
      CutAfterLoses(q, j, seg, b, limit);
      assert Place(q, i, seg, right) == CutAfter(q, j, seg.seqno, b);
    } else {
      assert i < j ==> q[i].seqno < q[j].seqno;
      if i + 1 == |q| {
        var b := [ClipRight(seg, right)];
        assert b[1..] == [];
        CutAfterLoses(q, j, seg, b, limit);
        assert Place(q, i, seg, right) == CutAfter(q, j, seg.seqno, b);
      } else {
        PlaceLoses(q, i + 1, seg, right, limit, j);
      }
    }
  }

  lemma NotQueuedBelow(q: seq<Seg>, limit: nat, p: int)
    requires Ordered(q, limit) && (q != [] ==> p < q[0].seqno)
    ensures !Queued(q, p)
  {
    if Queued(q, p) {
      QueuedRange(q, limit, p);
    }
  }

  lemma {:induction false} NotQueuedAbove(q: seq<Seg>, top: int, p: int)
    requires (forall k | 0 <= k < |q| :: q[k].End() <= top) && top <= p
    ensures !Queued(q, p)
    decreases |q|
  {
    if q != [] {
      NotQueuedAbove(q[1..], top, p);
    }
  }

  /** Queueing an out-of-order segment that fits the window keeps every byte received so far exactly
      when the segment does not lie strictly inside a queued one. */
  lemma EnqueueExactly(q: seq<Seg>, seg: Seg, right: int, limit: nat)
    requires Ordered(q, limit) && Fits(seg, limit) && seg.seqno + seg.TcpLen() <= right
    ensures (forall p :: Queued(Enqueue(q, seg, right), p) <==> Queued(q, p) || Holds(seg, p)) <==>
            !Inside(q, seg)
  {
    if Inside(q, seg) {
      var j :| 0 <= j < |q| && StrictlyWithin(q[j], seg);
      PlaceLoses(q, 0, seg, right, limit, j);
      QueuedAt(q, j, seg.End());
      assert !(Queued(Enqueue(q, seg, right), seg.End()) <==> Queued(q, seg.End()) || Holds(seg, seg.End()));
    } else {
      forall p
        ensures Queued(Enqueue(q, seg, right), p) <==> Queued(q, p) || Holds(seg, p)
      {
        EnqueueHolds(q, seg, right, limit, p);
      }
    }
  }

  lemma EnqueueHolds(q: seq<Seg>, seg: Seg, right: int, limit: nat, p: int)
    requires Ordered(q, limit) && Fits(seg, limit) && seg.seqno + seg.TcpLen() <= right && !Inside(q, seg)
    ensures Queued(Enqueue(q, seg, right), p) <==> Queued(q, p) || Holds(seg, p)
  {
    if q == [] {
      QueuedCons(seg, [], p);
      assert [seg] + [] == [seg];
    } else {
      PlaceHolds(q, 0, seg, right, limit, p);
    }
  }

  // ---------------------------------------------------------------------------------------------
  // Contents
  // ---------------------------------------------------------------------------------------------

  lemma {:induction false} AbsorbCut(seg: Seg, q: seq<Seg>, withFin: bool, st: Stream)
    requires CutFrom(seg, st) && AllCut(q, st)
    requires Fits(Absorb(seg, q, withFin).0, st.End())
    ensures CutFrom(Absorb(seg, q, withFin).0, st) && AllCut(Absorb(seg, q, withFin).1, st)
  {
    AbsorbSuffix(seg, q, withFin, st);
  }

  lemma {:induction false} AbsorbSuffix(seg: Seg, q: seq<Seg>, withFin: bool, st: Stream)
    requires AllCut(q, st)
    ensures AllCut(Absorb(seg, q, withFin).1, st)
    decreases |q|
  {
    if q != [] {
      AbsorbSuffix(if q[0].fin then seg.(fin := true) else seg, q[1..], withFin, st);
    }
  }

  lemma TrimToCut(seg: Seg, at: nat, st: Stream)
    requires CutFrom(seg, st) && seg.seqno <= at && !seg.fin
    ensures CutFrom(TrimTo(seg, at), st)
  {
    if seg.End() > at {
      PrefixIsCut(seg, st, at - seg.seqno, false);
    }
  }

  lemma ClipRightCut(seg: Seg, right: int, st: Stream)
    requires CutFrom(seg, st) && seg.seqno < right
    ensures CutFrom(ClipRight(seg, right), st)
  {
    if seg.seqno + seg.TcpLen() > right {
      PrefixIsCut(seg, st, right - seg.seqno, false);
    }
  }

  lemma SpliceCut(seg: Seg, next: seq<Seg>, st: Stream)
    requires CutFrom(seg, st) && AllCut(next, st)
    requires Fits(seg, st.End()) && Ordered(next, st.End()) && GoesBefore(seg, next)
    ensures AllCut(Splice(seg, next), st)
  {
    if !seg.fin {
      SpliceShape(seg, next, st.End());
      AbsorbCut(seg, next, false, st);
      var (c, rest) := Absorb(seg, next, false);
      if rest != [] {
        TrimToCut(c, rest[0].seqno, st);
      }
    }
  }

  lemma AllCutAppend(a: seq<Seg>, b: seq<Seg>, st: Stream)
    requires AllCut(a, st) && AllCut(b, st)
    ensures AllCut(a + b, st)
  {
  }

  lemma AllCutParts(q: seq<Seg>, n: nat, st: Stream)
    requires AllCut(q, st) && n <= |q|
    ensures AllCut(q[..n], st) && AllCut(q[n..], st)
  {
  }

  lemma CutAfterCut(q: seq<Seg>, j: nat, at: nat, b: seq<Seg>, st: Stream)
    requires j < |q| && q[j].seqno <= at && !q[j].fin && AllCut(q, st) && AllCut(b, st)
    ensures AllCut(CutAfter(q, j, at, b), st)
  {
    TrimToCut(q[j], at, st);
    AllCutParts(q, j, st);
    AllCutAppend(q[..j], [TrimTo(q[j], at)], st);
    AllCutAppend(q[..j] + [TrimTo(q[j], at)], b, st);
  }

  lemma PlaceBetweenCut(q: seq<Seg>, i: nat, seg: Seg, right: int, st: Stream)
    requires 0 < i < |q| && seg.seqno < right && Ordered(q, st.End()) && Fits(seg, st.End())
    requires q[i - 1].seqno + 1 <= seg.seqno <= q[i].seqno - 1 && AllCut(q, st) && CutFrom(seg, st)
    ensures AllCut(Place(q, i, seg, right), st)
  {
    OrderedParts(q, st.End(), i);
    AllCutParts(q, i, st);
    assert Before(q[i - 1], q[i]);
    var spliced := Splice(seg, q[i..]);
    SpliceCut(seg, q[i..], st);
    CutAfterCut(q, i - 1, seg.seqno, spliced, st);
    assert Place(q, i, seg, right) == CutAfter(q, i - 1, seg.seqno, spliced);
  }

  lemma PlaceLastCut(q: seq<Seg>, i: nat, seg: Seg, right: int, st: Stream)
    requires i + 1 == |q| && seg.seqno < right && AllCut(q, st) && CutFrom(seg, st) && seg.seqno != q[i].seqno
    requires !(i == 0 && seg.seqno < q[0].seqno)
    requires !(i > 0 && q[i - 1].seqno + 1 <= seg.seqno <= q[i].seqno - 1)
    ensures AllCut(Place(q, i, seg, right), st)
  {
    if seg.seqno > q[i].seqno && !q[i].fin {
      var last := [ClipRight(seg, right)];
      ClipRightCut(seg, right, st);
      CutAfterCut(q, i, seg.seqno, last, st);
      assert Place(q, i, seg, right) == CutAfter(q, i, seg.seqno, last);
    }
  }

  lemma {:induction false} PlaceCut(q: seq<Seg>, i: nat, seg: Seg, right: int, st: Stream)
    requires i < |q| && seg.seqno < right && Ordered(q, st.End()) && Fits(seg, st.End())
    requires i > 0 ==> q[i - 1].seqno < seg.seqno
    requires AllCut(q, st) && CutFrom(seg, st)
    ensures AllCut(Place(q, i, seg, right), st)
    decreases |q| - i
  {
    OrderedParts(q, st.End(), i);
    AllCutParts(q, i, st);
    if seg.seqno == q[i].seqno {
      if |seg.data| > |q[i].data| {
        SpliceCut(seg, q[i..], st);
        AllCutAppend(q[..i], Splice(seg, q[i..]), st);
      }
    } else if i == 0 && seg.seqno < q[0].seqno {
      SpliceCut(seg, q, st);
    } else if i > 0 && q[i - 1].seqno + 1 <= seg.seqno <= q[i].seqno - 1 {
      PlaceBetweenCut(q, i, seg, right, st);
    } else if i + 1 == |q| {
      PlaceLastCut(q, i, seg, right, st);
    } else {
      PlaceCut(q, i + 1, seg, right, st);
    }
  }

  // ---------------------------------------------------------------------------------------------
  // The receiver invariant
  // ---------------------------------------------------------------------------------------------

  /** What has been passed up is a prefix of the stream ending at rcv_nxt; after the FIN it is all. */
  ghost predicate Delivered(s: Rx, st: Stream) {
    && |s.delivered| <= |st.bytes| && s.delivered == st.bytes[..|s.delivered|]
    && s.nxt == st.base + |s.delivered| + (if s.fin then 1 else 0)
    && (s.fin ==> |s.delivered| == |st.bytes| && s.ooseq == [])
  }

  ghost predicate QueueOk(s: Rx, st: Stream) {
    Ordered(s.ooseq, st.End()) && AllCut(s.ooseq, st)
  }

  /** Between two loop iterations the first queued segment may be next in sequence. */
  ghost predicate Reached(s: Rx, st: Stream) {
    Delivered(s, st) && QueueOk(s, st) && (s.ooseq != [] ==> s.nxt <= s.ooseq[0].seqno)
  }

  /** The state between arrivals: the queue lies strictly above rcv_nxt. */
  ghost predicate Invariant(s: Rx, st: Stream) {
    Delivered(s, st) && QueueOk(s, st) && (s.ooseq != [] ==> s.nxt < s.ooseq[0].seqno)
  }

  /** Sequence number `p` has been passed up or is queued. */
  ghost predicate Known(s: Rx, st: Stream, p: int) {
    p < st.base + |s.delivered| || Queued(s.ooseq, p)
  }

  lemma DeliverReached(s: Rx, st: Stream, c: Seg, rest: seq<Seg>)
    requires Delivered(s, st) && !s.fin && CutFrom(c, st) && c.seqno == s.nxt
    requires Ordered(rest, st.End()) && AllCut(rest, st) && (c.fin ==> rest == [])
    requires rest != [] ==> c.End() <= rest[0].seqno
    ensures Reached(Deliver(s, c).(ooseq := rest), st)
  {
    assert st.bytes[..|s.delivered|] + c.data == st.bytes[..|s.delivered| + |c.data|];
  }

  lemma DeliverKnown(s: Rx, st: Stream, c: Seg, rest: seq<Seg>, p: int)
    requires Delivered(s, st) && !s.fin && c.seqno == s.nxt
    ensures Known(Deliver(s, c).(ooseq := rest), st, p) <==>
              p < st.base + |s.delivered| || Holds(c, p) || Queued(rest, p)
  {
  }

  lemma {:induction false} DrainReached(s: Rx, st: Stream)
    requires Reached(s, st)
    ensures Invariant(Drain(s), st)
    decreases |s.ooseq|
  {
    if s.ooseq != [] && s.ooseq[0].seqno == s.nxt {
      var c, rest := s.ooseq[0], s.ooseq[1..];
      OrderedParts(s.ooseq, st.End(), 1);
      assert rest != [] ==> c.End() <= s.ooseq[1].seqno && !c.fin;
      DeliverReached(s, st, c, rest);
      DrainReached(Deliver(s, c).(ooseq := rest), st);
    }
  }

  lemma {:induction false} DrainKnown(s: Rx, st: Stream, p: int)
    requires Reached(s, st)
    ensures Known(Drain(s), st, p) <==> Known(s, st, p)
    decreases |s.ooseq|
  {
    if s.ooseq != [] && s.ooseq[0].seqno == s.nxt {
      var c, rest := s.ooseq[0], s.ooseq[1..];
      OrderedParts(s.ooseq, st.End(), 1);
      assert rest != [] ==> c.End() <= s.ooseq[1].seqno && !c.fin;
      DeliverReached(s, st, c, rest);
      DeliverKnown(s, st, c, rest, p);
      DrainKnown(Deliver(s, c).(ooseq := rest), st, p);
    }
  }

  /** The in-order segment after the queue has been pruned. */
  lemma MergeSound(seg: Seg, q: seq<Seg>, st: Stream)
    requires CutFrom(seg, st) && Fits(seg, st.End()) && Ordered(q, st.End()) && AllCut(q, st)
    requires q != [] ==> seg.seqno < q[0].seqno
    ensures var (c, rest) := MergeInOrder(seg, q);
      && c.seqno == seg.seqno && CutFrom(c, st) && Ordered(rest, st.End()) && AllCut(rest, st)
      && (c.fin ==> rest == []) && (rest != [] ==> c.End() <= rest[0].seqno)
  {
    if q != [] && !seg.fin {
      AbsorbSound(seg, q, true, st.End());
      AbsorbCut(seg, q, true, st);
      RestIsLater(seg, q, true, st.End());
      var (c, rest) := Absorb(seg, q, true);
      if rest != [] {
        TrimToCut(c, rest[0].seqno, st);
      }
    }
  }

  lemma MergeHolds(seg: Seg, q: seq<Seg>, limit: nat, p: int)
    requires Fits(seg, limit) && Ordered(q, limit)
    requires q != [] ==> seg.seqno < q[0].seqno
    ensures var (c, rest) := MergeInOrder(seg, q);
            Holds(c, p) || Queued(rest, p) <==> Holds(seg, p) || Queued(q, p)
  {
    if q != [] && !seg.fin {
      AbsorbSound(seg, q, true, limit);
      AbsorbHolds(seg, q, true, limit, p);
      RestIsLater(seg, q, true, limit);
    } else if q != [] && Queued(q, p) {
      QueuedRange(q, limit, p);
    }
  }

  lemma InOrderInvariant(s: Rx, seg: Seg, st: Stream)
    requires Invariant(s, st) && !s.fin && CutFrom(seg, st) && seg.TcpLen() > 0
    requires seg.seqno == s.nxt && 0 < s.wnd
    ensures Invariant(InOrder(s, seg), st)
  {
    var c0 := ClipRight(seg, s.nxt + s.wnd);
    ClipRightCut(seg, s.nxt + s.wnd, st);
    MergeSound(c0, s.ooseq, st);
    var (c, rest) := MergeInOrder(c0, s.ooseq);
    DeliverReached(s, st, c, rest);
    DrainReached(Deliver(s, c).(ooseq := rest), st);
  }

  lemma InOrderKnown(s: Rx, seg: Seg, st: Stream, p: int)
    requires Invariant(s, st) && !s.fin && CutFrom(seg, st) && seg.TcpLen() > 0
    requires seg.seqno == s.nxt && 0 < s.wnd && seg.TcpLen() <= s.wnd
    ensures Known(InOrder(s, seg), st, p) <==> Known(s, st, p) || Holds(seg, p)
  {
    MergeSound(seg, s.ooseq, st);
    MergeHolds(seg, s.ooseq, st.End(), p);
    var (c, rest) := MergeInOrder(seg, s.ooseq);
    DeliverReached(s, st, c, rest);
    DeliverKnown(s, st, c, rest, p);
    DrainKnown(Deliver(s, c).(ooseq := rest), st, p);
  }

  lemma TrimFrontCut(seg: Seg, nxt: nat, st: Stream)
    requires CutFrom(seg, st) && seg.TcpLen() > 0
    ensures CutFrom(TrimFront(seg, nxt), st) && TrimFront(seg, nxt).TcpLen() > 0
    ensures seg.seqno >= nxt ==> TrimFront(seg, nxt) == seg
    ensures forall p | p >= nxt && seg.seqno < nxt <= seg.End() :: Holds(TrimFront(seg, nxt), p) <==> Holds(seg, p)
  {
    if seg.seqno + 1 <= nxt <= seg.seqno + seg.TcpLen() - 1 {
      SuffixIsCut(seg, st, nxt - seg.seqno);
    }
  }

  /** Every arrival cut from the stream keeps the invariant, whatever its order, overlap, duplication
      or size, and whether or not memory was found. */
  lemma ReceiveInvariant(s: Rx, seg: Seg, copied: bool, acked: bool, st: Stream)
    requires Invariant(s, st) && CutFrom(seg, st)
    ensures Invariant(Receive(s, seg, copied, acked), st)
  {
    if seg.TcpLen() != 0 && !s.fin {
      var t := TrimFront(seg, s.nxt);
      TrimFrontCut(seg, s.nxt, st);
      if s.nxt <= t.seqno <= s.nxt + s.wnd - 1 {
        if t.seqno == s.nxt {
          InOrderInvariant(s, t, st);
        } else if s.ooseq != [] {
          PlaceInvariant(s, t, st);
        }
      }
    }
  }

  lemma PlaceInvariant(s: Rx, t: Seg, st: Stream)
    requires Invariant(s, st) && CutFrom(t, st) && Fits(t, st.End()) && s.ooseq != [] && !s.fin
    requires s.nxt < t.seqno < s.nxt + s.wnd
    ensures Invariant(s.(ooseq := Place(s.ooseq, 0, t, s.nxt + s.wnd)), st)
  {
    PlaceOrdered(s.ooseq, 0, t, s.nxt + s.wnd, st.End());
    PlaceCut(s.ooseq, 0, t, s.nxt + s.wnd, st);
    InvariantWith(s, Place(s.ooseq, 0, t, s.nxt + s.wnd), st);
  }

  lemma InvariantWith(s: Rx, q: seq<Seg>, st: Stream)
    requires Invariant(s, st) && !s.fin && Ordered(q, st.End()) && AllCut(q, st)
    requires q != [] ==> s.nxt < q[0].seqno
    ensures Invariant(s.(ooseq := q), st)
  {
  }

  /** An arrival that the queue keeps whole: it fits the window, memory is found, and it does not lie
      strictly inside a queued segment. */
  ghost predicate KeptWhole(s: Rx, seg: Seg, copied: bool) {
    && seg.seqno + seg.TcpLen() <= s.nxt + s.wnd
    && (s.nxt < seg.seqno ==> copied && !Inside(s.ooseq, seg))
  }

  /** Such an arrival adds exactly its bytes to what is known. */
  lemma ReceiveKnown(s: Rx, seg: Seg, copied: bool, acked: bool, st: Stream, p: int)
    requires Invariant(s, st) && CutFrom(seg, st) && KeptWhole(s, seg, copied)
    ensures Known(Receive(s, seg, copied, acked), st, p) <==> Known(s, st, p) || (Holds(seg, p) && st.base <= p)
  {
    if seg.TcpLen() != 0 && !s.fin {
      var t := TrimFront(seg, s.nxt);
      TrimFrontCut(seg, s.nxt, st);
      if s.nxt <= t.seqno <= s.nxt + s.wnd - 1 {
        if t.seqno == s.nxt {
          InOrderKnown(s, t, st, p);
        } else {
          EnqueueHolds(s.ooseq, t, s.nxt + s.wnd, st.End(), p);
        }
      }
    }
  }

  // ---------------------------------------------------------------------------------------------
  // The receive window
  // ---------------------------------------------------------------------------------------------

  /** What the next outgoing segment would announce is not below what was announced before. */
  ghost predicate EdgeKept(s: Rx) {
    s.annEdge <= s.nxt + s.annWnd
  }

  /** No segment of the queue reaches past `right`. */
  ghost predicate AllWithin(q: seq<Seg>, right: int) {
    forall i | 0 <= i < |q| :: Within(q[i], right)
  }

  predicate Within(seg: Seg, right: int) {
    seg.seqno + seg.TcpLen() <= right
  }

  /** The window is not overrun, nothing beyond it is queued, and no more than it was announced. */
  ghost predicate WindowOk(s: Rx) {
    && 0 <= s.wnd <= TCP_WND
    && AllWithin(s.ooseq, s.nxt + s.wnd)
    && s.annEdge <= s.nxt + s.wnd && 0 <= s.annWnd <= s.wnd
  }

  lemma DeliverWindow(s: Rx, c: Seg, rest: seq<Seg>)
    requires c.seqno == s.nxt
    ensures var r := Deliver(s, c).(ooseq := rest);
      && r.nxt + r.wnd == s.nxt + s.wnd && r.annEdge == s.annEdge && EdgeKept(r)
      && (0 <= r.wnd <= TCP_WND && s.annEdge <= s.nxt + s.wnd ==> 0 <= r.annWnd <= r.wnd)
  {
  }

  lemma {:induction false} DrainWindow(s: Rx)
    requires EdgeKept(s)
    ensures var r := Drain(s);
      && r.nxt + r.wnd == s.nxt + s.wnd && r.annEdge == s.annEdge && EdgeKept(r)
      && (WindowOk(s) ==> WindowOk(r))
    decreases |s.ooseq|
  {
    if s.ooseq != [] && s.ooseq[0].seqno == s.nxt {
      DeliverWindow(s, s.ooseq[0], s.ooseq[1..]);
      DrainWindow(Deliver(s, s.ooseq[0]).(ooseq := s.ooseq[1..]));
    }
  }

  lemma {:induction false} AbsorbSubset(seg: Seg, q: seq<Seg>, withFin: bool, right: int)
    requires AllWithin(q, right)
    ensures AllWithin(Absorb(seg, q, withFin).1, right)
    decreases |q|
  {
    if q != [] {
      AbsorbSubset(if q[0].fin then seg.(fin := true) else seg, q[1..], withFin, right);
    }
  }

  /** A FIN taken over from the queue does not push a segment past the window. */
  lemma {:induction false} AbsorbFits(seg: Seg, q: seq<Seg>, withFin: bool, right: int, limit: nat)
    requires AllWithin(q, right) && Within(seg, right)
    requires Fits(seg, limit) && Ordered(q, limit) && (seg.fin ==> q == [])
    ensures Within(Absorb(seg, q, withFin).0, right)
    decreases |q|
  {
    if q != [] && seg.End() >= q[0].End() {
      OrderedParts(q, limit, 1);
      assert Fits(q[0], limit) && Within(q[0], right);
      assert |q| > 1 ==> q[0].seqno < q[1].seqno && !q[0].fin;
      AbsorbFits(if q[0].fin then seg.(fin := true) else seg, q[1..], withFin, right, limit);
    }
  }

  /** In-order delivery leaves the right window edge where it is. */
  lemma InOrderWindow(s: Rx, seg: Seg)
    requires seg.seqno == s.nxt && 0 < s.wnd
    ensures var r := InOrder(s, seg);
            r.nxt + r.wnd == s.nxt + s.wnd && r.annEdge == s.annEdge && EdgeKept(r)
  {
    var (c, rest) := MergeInOrder(ClipRight(seg, s.nxt + s.wnd), s.ooseq);
    DeliverWindow(s, c, rest);
    DrainWindow(Deliver(s, c).(ooseq := rest));
  }

  lemma InOrderWindowOk(s: Rx, seg: Seg, limit: nat)
    requires seg.seqno == s.nxt && 0 < s.wnd && seg.TcpLen() <= s.wnd && WindowOk(s)
    requires Fits(seg, limit) && Ordered(s.ooseq, limit)
    ensures WindowOk(InOrder(s, seg))
  {
    var right := s.nxt + s.wnd;
    if s.ooseq != [] && !seg.fin {
      AbsorbSubset(seg, s.ooseq, true, right);
      AbsorbFits(seg, s.ooseq, true, right, limit);
    }
    var (c, rest) := MergeInOrder(seg, s.ooseq);
    assert Within(c, right);
    DeliverWindow(s, c, rest);
    DrainWindow(Deliver(s, c).(ooseq := rest));
  }

  lemma SpliceFits(seg: Seg, next: seq<Seg>, right: int, limit: nat)
    requires AllWithin(next, right) && Within(seg, right) && Fits(seg, limit) && Ordered(next, limit)
    ensures AllWithin(Splice(seg, next), right)
  {
    if !seg.fin {
      AbsorbSubset(seg, next, false, right);
      AbsorbFits(seg, next, false, right, limit);
    }
  }

  lemma WithinAppend(a: seq<Seg>, b: seq<Seg>, right: int)
    requires AllWithin(a, right) && AllWithin(b, right)
    ensures AllWithin(a + b, right)
  {
  }

  lemma WithinParts(q: seq<Seg>, n: nat, right: int)
    requires AllWithin(q, right) && n <= |q|
    ensures AllWithin(q[..n], right) && AllWithin(q[n..], right)
  {
  }

  lemma CutAfterFits(q: seq<Seg>, j: nat, at: nat, b: seq<Seg>, right: int)
    requires j < |q| && q[j].seqno <= at && AllWithin(q, right) && AllWithin(b, right)
    ensures AllWithin(CutAfter(q, j, at, b), right)
  {
    assert Within(q[j], right);
    WithinParts(q, j, right);
    WithinAppend(q[..j], [TrimTo(q[j], at)], right);
    WithinAppend(q[..j] + [TrimTo(q[j], at)], b, right);
  }

  lemma {:induction false} PlaceFits(q: seq<Seg>, i: nat, seg: Seg, right: int, limit: nat)
    requires i < |q| && seg.seqno < right && Fits(seg, limit) && Ordered(q, limit)
    requires AllWithin(q, right) && Within(seg, right)
    ensures AllWithin(Place(q, i, seg, right), right)
    decreases |q| - i
  {
    OrderedParts(q, limit, i);
    WithinParts(q, i, right);
    SpliceFits(seg, q[i..], right, limit);
    if seg.seqno == q[i].seqno {
      WithinAppend(q[..i], Splice(seg, q[i..]), right);
    } else if i == 0 && seg.seqno < q[0].seqno {
      assert q[0..] == q;
    } else if i > 0 && q[i - 1].seqno + 1 <= seg.seqno <= q[i].seqno - 1 {
      CutAfterFits(q, i - 1, seg.seqno, Splice(seg, q[i..]), right);
      assert Place(q, i, seg, right) == CutAfter(q, i - 1, seg.seqno, Splice(seg, q[i..]));
    } else if i + 1 < |q| {
      PlaceFits(q, i + 1, seg, right, limit);
    } else if seg.seqno > q[i].seqno && !q[i].fin {
      CutAfterFits(q, i, seg.seqno, [seg], right);
      assert Place(q, i, seg, right) == CutAfter(q, i, seg.seqno, [seg]);
    }
  }

  /** A segment inside what was announced never overruns the window. */
  lemma ReceiveWindowOk(s: Rx, seg: Seg, copied: bool, acked: bool, st: Stream)
    requires Invariant(s, st) && CutFrom(seg, st) && WindowOk(s) && seg.seqno + seg.TcpLen() <= s.annEdge
    ensures WindowOk(Receive(s, seg, copied, acked))
  {
    if seg.TcpLen() != 0 && !s.fin {
      var t := TrimFront(seg, s.nxt);
      TrimFrontCut(seg, s.nxt, st);
      if s.nxt <= t.seqno <= s.nxt + s.wnd - 1 {
        if t.seqno == s.nxt {
          InOrderWindowOk(s, t, st.End());
        } else if s.ooseq != [] {
          PlaceFits(s.ooseq, 0, t, s.nxt + s.wnd, st.End());
        }
      }
    }
  }

  lemma ReceiveEdge(s: Rx, seg: Seg, copied: bool, acked: bool)
    requires EdgeKept(s)
    ensures var r := Receive(s, seg, copied, acked);
            EdgeKept(r) && s.annEdge <= r.annEdge && r.nxt + r.wnd == s.nxt + s.wnd
  {
    if seg.TcpLen() != 0 && !s.fin {
      var t := TrimFront(seg, s.nxt);
      if s.nxt <= t.seqno <= s.nxt + s.wnd - 1 && t.seqno == s.nxt {
        InOrderWindow(s, t);
      }
    }
  }

  // ---------------------------------------------------------------------------------------------
  // Runs
  // ---------------------------------------------------------------------------------------------

  datatype Event =
    | Arrive(seg: Seg, copied: bool, acked: bool)
    | Consume(len: nat)
    | Send

  function Apply(s: Rx, e: Event): Rx {
    match e
    case Arrive(seg, copied, acked) => Receive(s, seg, copied, acked)
    case Consume(len) => Recved(s, len)
    case Send => Announce(s)
  }

  function Exec(s: Rx, events: seq<Event>): Rx
    decreases |events|
  {
    if events == [] then s else Exec(Apply(s, events[0]), events[1..])
  }

  /** The connection as tcp_process leaves it when the peer's SYN has been seen. */
  function Opened(st: Stream, mss: nat): Rx {
    Rx(st.base, TCP_WND, TCP_WND, st.base, mss, [], [], false)
  }

  ghost predicate FromStream(events: seq<Event>, st: Stream) {
    forall e | e in events && e.Arrive? :: CutFrom(e.seg, st)
  }

  /** Every arrival stays within the edge announced before it. */
  ghost predicate Respectful(s: Rx, events: seq<Event>)
    decreases |events|
  {
    events != [] ==>
      && (events[0].Arrive? ==> events[0].seg.seqno + events[0].seg.TcpLen() <= s.annEdge)
      && Respectful(Apply(s, events[0]), events[1..])
  }

  /** Every arrival is kept whole by the queue. */
  ghost predicate Lossless(s: Rx, events: seq<Event>)
    decreases |events|
  {
    events != [] ==>
      && (events[0].Arrive? ==> KeptWhole(s, events[0].seg, events[0].copied))
      && Lossless(Apply(s, events[0]), events[1..])
  }

  /** Byte `p` of the stream was in some arrival. */
  ghost predicate Arrived(events: seq<Event>, p: int) {
    exists e | e in events :: e.Arrive? && Holds(e.seg, p)
  }

  lemma {:induction false} ExecInvariant(s: Rx, events: seq<Event>, st: Stream)
    requires Invariant(s, st) && FromStream(events, st)
    ensures Invariant(Exec(s, events), st)
    decreases |events|
  {
    if events != [] {
      match events[0] {
        case Arrive(seg, copied, acked) =>
          assert events[0] in events;
          ReceiveInvariant(s, seg, copied, acked, st);
        case Consume(len) =>
        case Send =>
      }
      ExecInvariant(Apply(s, events[0]), events[1..], st);
    }
  }

  lemma {:induction false} ExecKnown(s: Rx, events: seq<Event>, st: Stream, p: int)
    requires Invariant(s, st) && FromStream(events, st) && Lossless(s, events) && st.base <= p
    ensures Known(Exec(s, events), st, p) <==> Known(s, st, p) || Arrived(events, p)
    decreases |events|
  {
    if events != [] {
      var e, rest := events[0], events[1..];
      var s1 := Apply(s, e);
      assert e in events;
      match e {
        case Arrive(seg, copied, acked) =>
          ReceiveInvariant(s, seg, copied, acked, st);
          ReceiveKnown(s, seg, copied, acked, st, p);
        case Consume(len) =>
        case Send =>
      }
      ExecKnown(s1, rest, st, p);
      assert Arrived(events, p) <==> (e.Arrive? && Holds(e.seg, p)) || Arrived(rest, p) by {
        assert events == [e] + rest;
      }
    }
  }

  /** TCP reassembly.  For arrivals cut from one stream in any order, with any overlap, duplication,
      size, lack of memory and any window: what was passed up is a prefix of the stream ending at
      rcv_nxt, the FIN is reported only after all of it, and the queue is strictly sorted, free of
      overlap, cut from the stream and above rcv_nxt. */
  lemma ReassemblySafe(st: Stream, mss: nat, events: seq<Event>)
    requires FromStream(events, st)
    ensures var s := Exec(Opened(st, mss), events);
      && s.delivered <= st.bytes
      && s.nxt == st.base + |s.delivered| + (if s.fin then 1 else 0)
      && (s.fin ==> s.delivered == st.bytes)
      && Ordered(s.ooseq, st.End()) && AllCut(s.ooseq, st)
      && (forall i | 0 <= i < |s.ooseq| :: s.nxt < s.ooseq[i].seqno)
  {
    ExecInvariant(Opened(st, mss), events, st);
    var s := Exec(Opened(st, mss), events);
    forall i | 0 <= i < |s.ooseq|
      ensures s.nxt < s.ooseq[i].seqno
    {
      assert i > 0 ==> s.ooseq[0].seqno < s.ooseq[i].seqno;
    }
  }

  /** If moreover the queue kept every arrival whole, what was passed up is exactly the longest prefix
      of the stream that has arrived. */
  lemma ReassemblyComplete(st: Stream, mss: nat, events: seq<Event>)
    requires FromStream(events, st) && Lossless(Opened(st, mss), events)
    ensures var n := |Exec(Opened(st, mss), events).delivered|;
      && (forall p | st.base <= p < st.base + n :: Arrived(events, p))
      && !Arrived(events, st.base + n)
  {
    var s0 := Opened(st, mss);
    ExecInvariant(s0, events, st);
    var s := Exec(s0, events);
    var n := |s.delivered|;
    forall p | st.base <= p < st.base + n
      ensures Arrived(events, p)
    {
      ExecKnown(s0, events, st, p);
    }
    ExecKnown(s0, events, st, st.base + n);
    NotQueuedBelow(s.ooseq, st.End(), st.base + n);
    assert !Known(s, st, st.base + n);
  }

  lemma {:induction false} ExecEdge(s: Rx, events: seq<Event>)
    requires EdgeKept(s)
    ensures EdgeKept(Exec(s, events)) && s.annEdge <= Exec(s, events).annEdge
    decreases |events|
  {
    if events != [] {
      var s1 := Apply(s, events[0]);
      match events[0] {
        case Arrive(seg, copied, acked) => ReceiveEdge(s, seg, copied, acked);
        case Consume(len) =>
        case Send =>
      }
      ExecEdge(s1, events[1..]);
    }
  }

  lemma {:induction false} ExecConcat(s: Rx, a: seq<Event>, b: seq<Event>)
    ensures Exec(s, a + b) == Exec(Exec(s, a), b)
    decreases |a|
  {
    if a == [] {
      assert a + b == b;
    } else {
      assert (a + b)[1..] == a[1..] + b;
      ExecConcat(Apply(s, a[0]), a[1..], b);
    }
  }

  /** The announced right edge never moves left over any interleaving of arrivals (of any kind),
      consumption by the application and output. */
  lemma EdgeNeverRetreats(st: Stream, mss: nat, before: seq<Event>, after: seq<Event>)
    ensures Exec(Opened(st, mss), before).annEdge <= Exec(Opened(st, mss), before + after).annEdge
  {
    ExecEdge(Opened(st, mss), before);
    ExecEdge(Exec(Opened(st, mss), before), after);
    ExecConcat(Opened(st, mss), before, after);
  }

  lemma ApplyWindow(s: Rx, e: Event, st: Stream)
    requires Invariant(s, st) && WindowOk(s)
    requires e.Arrive? ==> CutFrom(e.seg, st) && e.seg.seqno + e.seg.TcpLen() <= s.annEdge
    ensures Invariant(Apply(s, e), st) && WindowOk(Apply(s, e))
  {
    match e {
      case Arrive(seg, copied, acked) =>
        ReceiveInvariant(s, seg, copied, acked, st);
        ReceiveWindowOk(s, seg, copied, acked, st);
      case Consume(len) => RecvedWindow(s, len);
      case Send =>
    }
  }

  lemma RecvedWindow(s: Rx, len: nat)
    requires WindowOk(s)
    ensures WindowOk(Recved(s, len)) && Recved(s, len).nxt == s.nxt && Recved(s, len).ooseq == s.ooseq
  {
    assert forall i | 0 <= i < |s.ooseq| :: Within(s.ooseq[i], s.nxt + s.wnd);
  }

  lemma {:induction false} ExecWindow(s: Rx, events: seq<Event>, st: Stream)
    requires Invariant(s, st) && WindowOk(s) && FromStream(events, st) && Respectful(s, events)
    ensures WindowOk(Exec(s, events))
    decreases |events|
  {
    if events != [] {
      assert events[0] in events;
      ApplyWindow(s, events[0], st);
      ExecWindow(Apply(s, events[0]), events[1..], st);
    }
  }

  /** A peer that stays within the announced edge never drives the window negative, never has queued
      data beyond it, and is never announced more than there is. */
  lemma WindowNeverOverrun(st: Stream, mss: nat, events: seq<Event>)
    requires FromStream(events, st) && Respectful(Opened(st, mss), events)
    ensures var s := Exec(Opened(st, mss), events);
      && 0 <= s.wnd <= TCP_WND && s.annEdge <= s.nxt + s.wnd
      && (forall i | 0 <= i < |s.ooseq| :: s.ooseq[i].seqno + s.ooseq[i].TcpLen() <= s.nxt + s.wnd)
  {
    ExecWindow(Opened(st, mss), events, st);
    var s := Exec(Opened(st, mss), events);
    assert forall i | 0 <= i < |s.ooseq| :: Within(s.ooseq[i], s.nxt + s.wnd);
  }

  // ---------------------------------------------------------------------------------------------
  // Overrunning the window
  // ---------------------------------------------------------------------------------------------

  /** An arrival that the queue takes as it is although it reaches past the window: only behind the last
      queued segment is an arrival clipped, and one that starts like a queued segment without having more
      data is dropped. */
  ghost predicate Unclipped(q: seq<Seg>, seg: Seg, right: int) {
    !Within(seg, right) && !Behind(q, seg) && !Dropped(q, seg)
  }

  predicate Behind(q: seq<Seg>, seg: Seg) {
    q != [] && q[|q| - 1].seqno < seg.seqno
  }

  ghost predicate Dropped(q: seq<Seg>, seg: Seg) {
    exists i | 0 <= i < |q| :: NoMore(q[i], seg)
  }

  predicate NoMore(queued: Seg, seg: Seg) {
    queued.seqno == seg.seqno && |seg.data| <= |queued.data|
  }

  lemma {:induction false} AbsorbAll(seg: Seg, q: seq<Seg>, right: int)
    requires AllWithin(q, right) && seg.End() >= right
    ensures Absorb(seg, q, false).1 == []
    decreases |q|
  {
    if q != [] {
      assert Within(q[0], right);
      AbsorbAll(if q[0].fin then seg.(fin := true) else seg, q[1..], right);
    }
  }

  lemma SpliceOverruns(seg: Seg, next: seq<Seg>, right: int)
    requires AllWithin(next, right) && !Within(seg, right)
    ensures !AllWithin(Splice(seg, next), right)
  {
    if !seg.fin {
      AbsorbAll(seg, next, right);
    }
    assert !Within(Splice(seg, next)[0], right);
  }

  lemma OverrunAfter(a: seq<Seg>, b: seq<Seg>, right: int)
    requires !AllWithin(b, right)
    ensures !AllWithin(a + b, right)
  {
    var i :| 0 <= i < |b| && !Within(b[i], right);
    assert (a + b)[|a| + i] == b[i];
  }

  lemma {:induction false} PlaceOverruns(q: seq<Seg>, i: nat, seg: Seg, right: int, limit: nat)
    requires i < |q| && seg.seqno < right && Ordered(q, limit) && AllWithin(q, right) && Unclipped(q, seg, right)
    requires i > 0 ==> q[i - 1].seqno < seg.seqno
    ensures !AllWithin(Place(q, i, seg, right), right)
    decreases |q| - i
  {
    WithinParts(q, i, right);
    SpliceOverruns(seg, q[i..], right);
    if seg.seqno == q[i].seqno {
      assert !NoMore(q[i], seg);
      OverrunAfter(q[..i], Splice(seg, q[i..]), right);
    } else if i == 0 && seg.seqno < q[0].seqno {
      assert q[0..] == q;
    } else if i > 0 && q[i - 1].seqno + 1 <= seg.seqno <= q[i].seqno - 1 {
      OverrunAfter(q[..i - 1] + [TrimTo(q[i - 1], seg.seqno)], Splice(seg, q[i..]), right);
    } else if i + 1 < |q| {
      assert q[i].seqno < seg.seqno;
      PlaceOverruns(q, i + 1, seg, right, limit);
    }
  }

  /** Behind the last queued segment the arrival is clipped. */
  lemma {:induction false} PlaceClips(q: seq<Seg>, i: nat, seg: Seg, right: int, limit: nat)
    requires i < |q| && seg.seqno < right && Ordered(q, limit) && AllWithin(q, right) && Behind(q, seg)
    ensures AllWithin(Place(q, i, seg, right), right)
    decreases |q| - i
  {
    assert i < |q| - 1 ==> Before(q[i], q[|q| - 1]);
    if i + 1 < |q| {
      PlaceClips(q, i + 1, seg, right, limit);
    } else if !q[i].fin {
      CutAfterFits(q, i, seg.seqno, [ClipRight(seg, right)], right);
      assert Place(q, i, seg, right) == CutAfter(q, i, seg.seqno, [ClipRight(seg, right)]);
    }
  }

  /** Without more data than a queued segment of the same start the arrival is dropped. */
  lemma {:induction false} PlaceDrops(q: seq<Seg>, i: nat, seg: Seg, right: int, limit: nat, j: nat)
    requires i <= j < |q| && seg.seqno < right && Ordered(q, limit) && NoMore(q[j], seg)
    ensures Place(q, i, seg, right) == q
    decreases |q| - i
  {
    if i < j {
      assert Before(q[i], q[j]);
      PlaceDrops(q, i + 1, seg, right, limit, j);
    }
  }

  /** Queueing an arrival keeps the queue within the window exactly when the arrival ends within it, is
      placed behind the last queued segment, or is dropped. */
  lemma QueueWithinExactly(q: seq<Seg>, seg: Seg, right: int, limit: nat)
    requires Ordered(q, limit) && Fits(seg, limit) && AllWithin(q, right) && seg.seqno < right
    ensures AllWithin(Enqueue(q, seg, right), right) <==> Within(seg, right) || Behind(q, seg) || Dropped(q, seg)
  {
    if q == [] {
      assert [seg][0] == seg;
    } else if Within(seg, right) {
      PlaceFits(q, 0, seg, right, limit);
    } else if Behind(q, seg) {
      PlaceClips(q, 0, seg, right, limit);
    } else if Dropped(q, seg) {
      var j :| 0 <= j < |q| && NoMore(q[j], seg);
      PlaceDrops(q, 0, seg, right, limit, j);
    } else {
      PlaceOverruns(q, 0, seg, right, limit);
    }
  }

  /** An out-of-order arrival that starts in the window and is queued past it. */
  ghost predicate Overruns(s: Rx, seg: Seg, copied: bool) {
    && seg.TcpLen() > 0 && !s.fin && copied && s.nxt < seg.seqno < s.nxt + s.wnd
    && Unclipped(s.ooseq, seg, s.nxt + s.wnd)
  }

  /** Any arrival of the stream keeps the window sound, in order or not, exactly when it is not such a
      one. */
  lemma OverrunExactly(s: Rx, seg: Seg, copied: bool, acked: bool, st: Stream)
    requires Invariant(s, st) && CutFrom(seg, st) && WindowOk(s)
    ensures WindowOk(Receive(s, seg, copied, acked)) <==> !Overruns(s, seg, copied)
  {
    if seg.TcpLen() != 0 && !s.fin {
      var t := TrimFront(seg, s.nxt);
      TrimFrontCut(seg, s.nxt, st);
      if s.nxt <= t.seqno <= s.nxt + s.wnd - 1 {
        if t.seqno == s.nxt {
          InOrderClipped(s, t, st);
        } else {
          assert t == seg;
          QueueWithinExactly(s.ooseq, t, s.nxt + s.wnd, st.End());
        }
      }
    }
  }

  /** In sequence an arrival is always clipped. */
  lemma InOrderClipped(s: Rx, seg: Seg, st: Stream)
    requires Invariant(s, st) && CutFrom(seg, st) && WindowOk(s) && seg.TcpLen() > 0
    requires seg.seqno == s.nxt && 0 < s.wnd
    ensures WindowOk(InOrder(s, seg))
  {
    var c := ClipRight(seg, s.nxt + s.wnd);
    ClipRightCut(seg, s.nxt + s.wnd, st);
    InOrderWindowOk(s, c, st.End());
    ClippedTwice(s, seg, c);
  }

  lemma ClippedTwice(s: Rx, seg: Seg, c: Seg)
    requires seg.seqno == s.nxt && 0 < s.wnd && c == ClipRight(seg, s.nxt + s.wnd)
    ensures c.seqno == s.nxt && InOrder(s, c) == InOrder(s, seg)
  {
    assert ClipRight(c, s.nxt + s.wnd) == c;
  }

  /** The window is sound all along a run. */
  ghost predicate WindowHolds(s: Rx, events: seq<Event>)
    decreases |events|
  {
    WindowOk(s) && (events != [] ==> WindowHolds(Apply(s, events[0]), events[1..]))
  }

  ghost predicate NoOverrun(s: Rx, events: seq<Event>)
    decreases |events|
  {
    events != [] ==>
      && (events[0].Arrive? ==> !Overruns(s, events[0].seg, events[0].copied))
      && NoOverrun(Apply(s, events[0]), events[1..])
  }

  lemma {:induction false} ExecWindowExactly(s: Rx, events: seq<Event>, st: Stream)
    requires Invariant(s, st) && WindowOk(s) && FromStream(events, st)
    ensures WindowHolds(s, events) <==> NoOverrun(s, events)
    decreases |events|
  {
    if events != [] {
      var e, rest := events[0], events[1..];
      assert e in events;
      match e {
        case Arrive(seg, copied, acked) =>
          ReceiveInvariant(s, seg, copied, acked, st);
          OverrunExactly(s, seg, copied, acked, st);
        case Consume(len) => RecvedWindow(s, len);
        case Send =>
      }
      if WindowOk(Apply(s, e)) {
        ExecWindowExactly(Apply(s, e), rest, st);
      } else {
        assert !WindowHolds(Apply(s, e), rest);
      }
    }
  }

  /** Over every run, with any peer: the window is never overrun, nothing is queued beyond it and no more
      than it is announced, exactly when no arrival is queued past it. */
  lemma WindowExactly(st: Stream, mss: nat, events: seq<Event>)
    requires FromStream(events, st)
    ensures WindowHolds(Opened(st, mss), events) <==> NoOverrun(Opened(st, mss), events)
  {
    ExecWindowExactly(Opened(st, mss), events, st);
  }

  // ---------------------------------------------------------------------------------------------
  // Plain transfers
  // ---------------------------------------------------------------------------------------------

  function Cut(st: Stream, start: nat, stop: nat): Seg
    requires st.base <= start <= stop <= st.End()
  {
    Seg(start, st.bytes[start - st.base..stop - st.base], false)
  }

  /** The bytes from `start` up to `stop`, in order, in segments of at most `size` bytes. */
  function Transfer(st: Stream, start: nat, stop: nat, size: nat): seq<Event>
    requires st.base <= start <= stop <= st.End() && size > 0
    decreases stop - start
  {
    if start == stop then []
    else
      var next := if stop - start < size then stop else start + size;
      [Arrive(Cut(st, start, next), true, true)] + Transfer(st, next, stop, size)
  }

  lemma {:induction false} TransferFromStream(st: Stream, start: nat, stop: nat, size: nat)
    requires st.base <= start <= stop <= st.End() && size > 0
    ensures FromStream(Transfer(st, start, stop, size), st)
    decreases stop - start
  {
    if start != stop {
      var next := if stop - start < size then stop else start + size;
      TransferFromStream(st, next, stop, size);
    }
  }

  /** An in-sequence segment that ends before the queue starts is just delivered. */
  lemma PlainDelivery(s: Rx, seg: Seg)
    requires seg.seqno == s.nxt && !seg.fin && !s.fin && 0 < |seg.data| <= s.wnd
    requires s.ooseq != [] ==> seg.End() < s.ooseq[0].seqno
    ensures Receive(s, seg, true, true) == Deliver(s, seg)
  {
    assert TrimFront(seg, s.nxt) == seg && ClipRight(seg, s.nxt + s.wnd) == seg;
    assert MergeInOrder(seg, s.ooseq) == (seg, s.ooseq);
    assert Deliver(s, seg).(ooseq := s.ooseq) == Deliver(s, seg);
  }

  /** The whole window has been announced. */
  predicate Snug(s: Rx) {
    s.annEdge == s.nxt + s.wnd && s.annWnd == s.wnd
  }

  /** What a transfer below the queue does. */
  predicate Transferred(s: Rx, stop: nat, r: Rx) {
    && r.nxt == stop && r.nxt + r.wnd == s.nxt + s.wnd && r.ooseq == s.ooseq && r.fin == s.fin
    && r.annEdge == s.annEdge && r.mss == s.mss && (Snug(s) ==> Snug(r))
  }

  lemma {:induction false} TransferDelivers(s: Rx, st: Stream, stop: nat, size: nat)
    requires st.base <= s.nxt <= stop <= st.End() && size > 0 && !s.fin && stop <= s.nxt + s.wnd
    requires s.ooseq != [] ==> stop < s.ooseq[0].seqno
    ensures Transferred(s, stop, Exec(s, Transfer(st, s.nxt, stop, size)))
    ensures stop <= s.annEdge ==> Respectful(s, Transfer(st, s.nxt, stop, size))
    decreases stop - s.nxt
  {
    if s.nxt != stop {
      var next := if stop - s.nxt < size then stop else s.nxt + size;
      var seg := Cut(st, s.nxt, next);
      PlainDelivery(s, seg);
      var events, rest, t := Transfer(st, s.nxt, stop, size), Transfer(st, next, stop, size), Deliver(s, seg);
      assert events[1..] == rest && events[0] == Arrive(seg, true, true);
      assert Transferred(s, next, t);
      TransferDelivers(t, st, stop, size);
      TransferredOn(s, next, t, stop, Exec(t, rest));
    }
  }

  lemma TransferredOn(s: Rx, next: nat, t: Rx, stop: nat, r: Rx)
    requires Transferred(s, next, t) && Transferred(t, stop, r)
    ensures Transferred(s, stop, r)
  {
  }

  /** A peer can overrun the window: for every n there is a run in which one arrival at its right edge and
      the bytes below it take rcv_wnd to -n, whatever the size of the segments. */
  lemma OverrunGoesNegative(st: Stream, mss: nat, size: nat, n: nat) returns (events: seq<Event>)
    requires |st.bytes| == TCP_WND + n && n > 0 && size > 0
    ensures FromStream(events, st) && Exec(Opened(st, mss), events).wnd == 0 - n
  {
    var edge := st.base + TCP_WND - 1;
    var far, last := Cut(st, edge, st.End()), Cut(st, edge - 1, edge);
    var gap := Transfer(st, st.base, edge - 1, size);
    TransferFromStream(st, st.base, edge - 1, size);
    var first, final := Arrive(far, true, false), Arrive(last, true, true);
    events := [first] + (gap + [final]);
    PartsFromStream(st, first, gap, final);
    var q := Opened(st, mss).(ooseq := [far]);
    FarQueued(Opened(st, mss), far);
    TransferDelivers(q, st, edge - 1, size);
    LastByte(Exec(q, gap), last, far);
    ThreeParts(Opened(st, mss), first, gap, final, events);
  }

  lemma PartsFromStream(st: Stream, first: Event, gap: seq<Event>, final: Event)
    requires FromStream(gap, st) && first.Arrive? && CutFrom(first.seg, st) && final.Arrive? && CutFrom(final.seg, st)
    ensures FromStream([first] + (gap + [final]), st)
  {
  }

  lemma FarQueued(s: Rx, far: Seg)
    requires s.ooseq == [] && !s.fin && far.TcpLen() > 0 && s.nxt < far.seqno < s.nxt + s.wnd
    ensures Receive(s, far, true, false) == s.(ooseq := [far])
  {
  }

  lemma ThreeParts(s: Rx, e: Event, gap: seq<Event>, last: Event, events: seq<Event>)
    requires events == [e] + (gap + [last])
    ensures Exec(s, events) == Apply(Exec(Apply(s, e), gap), last)
  {
    assert events[1..] == gap + [last] && [last][1..] == [];
    ExecConcat(Apply(s, e), gap, [last]);
  }

  /** The byte in front of a queued segment lets it through. */
  lemma LastByte(s: Rx, last: Seg, far: Seg)
    requires s.ooseq == [far] && !s.fin && !last.fin && s.wnd == 2
    requires last.seqno == s.nxt && |last.data| == 1 && far.seqno == s.nxt + 1 && |far.data| > 1 && !far.fin
    ensures Receive(s, last, true, true).wnd == 1 - |far.data|
  {
    assert TrimFront(last, s.nxt) == last && ClipRight(last, s.nxt + s.wnd) == last;
    assert MergeInOrder(last, s.ooseq) == (last, s.ooseq);
    var d := Deliver(s, last).(ooseq := s.ooseq);
    assert d.ooseq[1..] == [];
    assert Drain(d) == Drain(Deliver(d, far).(ooseq := []));
  }

  // ---------------------------------------------------------------------------------------------
  // The edge as the peer reads it
  // ---------------------------------------------------------------------------------------------

  /** What the peer makes of the 16-bit window field, which carries rcv_ann_wnd >> rcv_scale. */
  function WireWindow(annWnd: int, scale: nat): nat {
    annWnd % TWO32 / Pow2(scale) % 65536 * Pow2(scale)
  }

  function WireEdge(s: Rx, scale: nat): int {
    s.nxt + WireWindow(s.annWnd, scale)
  }

  lemma FieldAtMost(w: nat, u: nat)
    requires u > 0
    ensures w / u % 65536 * u <= w
  {
    var q := w / u;
    assert q * u <= w;
    var r := q % 65536;
    assert r <= q;
    MulMono(r, q, u);
  }

  /** Two headers of a run: one sent after the events `before`, one after those and `after`. */
  ghost function Header(st: Stream, mss: nat, before: seq<Event>): Rx {
    Announce(Exec(Opened(st, mss), before))
  }

  ghost function LaterHeader(st: Stream, mss: nat, before: seq<Event>, after: seq<Event>): Rx {
    Announce(Exec(Header(st, mss, before), after))
  }

  /** A run with a header after `before` whose peer stays within what was announced. */
  ghost predicate HeaderRun(st: Stream, mss: nat, before: seq<Event>, after: seq<Event>) {
    && FromStream(before, st) && FromStream(after, st)
    && Respectful(Opened(st, mss), before) && Respectful(Header(st, mss, before), after)
  }

  /** Over every run, no header shows the peer a smaller edge than one before it. */
  ghost predicate WireNeverRetreats(mss: nat, scale: nat) {
    forall st: Stream, before: seq<Event>, after: seq<Event> | HeaderRun(st, mss, before, after) ::
      WireEdge(Header(st, mss, before), scale) <= WireEdge(LaterHeader(st, mss, before, after), scale)
  }

  lemma HeaderWindow(st: Stream, mss: nat, before: seq<Event>, after: seq<Event>)
    requires HeaderRun(st, mss, before, after)
    ensures var h, l := Header(st, mss, before), LaterHeader(st, mss, before, after);
      && 0 <= h.annWnd <= TCP_WND && 0 <= l.annWnd <= TCP_WND
      && h.annEdge == h.nxt + h.annWnd && l.annEdge == l.nxt + l.annWnd && h.annEdge <= l.annEdge && h.nxt <= l.nxt
  {
    var s := Opened(st, mss);
    ExecInvariant(s, before, st);
    ExecWindow(s, before, st);
    var h := Header(st, mss, before);
    ExecInvariant(h, after, st);
    ExecWindow(h, after, st);
    ExecEdge(h, after);
    ExecNxt(h, after);
  }

  lemma {:induction false} DrainNxt(s: Rx)
    ensures s.nxt <= Drain(s).nxt
    decreases |s.ooseq|
  {
    if s.ooseq != [] && s.ooseq[0].seqno == s.nxt {
      DrainNxt(Deliver(s, s.ooseq[0]).(ooseq := s.ooseq[1..]));
    }
  }

  lemma {:induction false} ExecNxt(s: Rx, events: seq<Event>)
    ensures s.nxt <= Exec(s, events).nxt
    decreases |events|
  {
    if events != [] {
      if events[0].Arrive? && s.wnd > 0 {
        var t := TrimFront(events[0].seg, s.nxt);
        if t.seqno == s.nxt {
          var (c, rest) := MergeInOrder(ClipRight(t, s.nxt + s.wnd), s.ooseq);
          DrainNxt(Deliver(s, c).(ooseq := rest));
        }
      }
      ExecNxt(Apply(s, events[0]), events[1..]);
    }
  }

  /** Over every run, a header whose field carries the announced window exactly shows an edge that no
      earlier header has exceeded. */
  lemma WireEdgeExact(st: Stream, mss: nat, before: seq<Event>, after: seq<Event>, scale: nat)
    requires HeaderRun(st, mss, before, after)
    requires var w := LaterHeader(st, mss, before, after).annWnd; WireWindow(w, scale) == w
    ensures WireEdge(Header(st, mss, before), scale) <= WireEdge(LaterHeader(st, mss, before, after), scale)
  {
    HeaderWindow(st, mss, before, after);
    var h, l := Header(st, mss, before), LaterHeader(st, mss, before, after);
    WireAtMost(h.annWnd, scale);
  }

  lemma WireAtMost(w: nat, scale: nat)
    requires w <= TCP_WND
    ensures WireWindow(w, scale) <= w
  {
    FieldOf(w, scale);
    FieldAtMost(w, Pow2(scale));
  }

  /** The window after n bytes of a window that has been announced whole. */
  lemma AfterBytes(st: Stream, mss: nat, size: nat, n: nat) returns (before: seq<Event>)
    requires |st.bytes| >= TCP_WND >= n && size > 0
    ensures FromStream(before, st) && Respectful(Opened(st, mss), before)
    ensures var h := Header(st, mss, before);
      h.nxt == st.base + n && h.wnd == TCP_WND - n && Snug(h) && h.ooseq == [] && !h.fin && h.mss == mss
  {
    var s := Opened(st, mss);
    var gap, r := Gap(Announce(s), st, st.base + n, size);
    before := [Send] + gap;
    SendFirst(s, st, gap, before);
  }

  /** The bytes up to `stop`, in segments. */
  lemma Gap(s: Rx, st: Stream, stop: nat, size: nat) returns (gap: seq<Event>, r: Rx)
    requires st.base <= s.nxt <= stop <= st.End() && size > 0 && !s.fin && stop <= s.nxt + s.wnd && s.ooseq == []
    requires stop <= s.annEdge
    ensures FromStream(gap, st) && Respectful(s, gap) && r == Exec(s, gap) && Transferred(s, stop, r)
  {
    gap := Transfer(st, s.nxt, stop, size);
    r := Exec(s, gap);
    TransferDelivers(s, st, stop, size);
    TransferFromStream(st, s.nxt, stop, size);
  }

  lemma SendFirst(s: Rx, st: Stream, gap: seq<Event>, before: seq<Event>)
    requires before == [Send] + gap && FromStream(gap, st) && Respectful(Announce(s), gap)
    ensures FromStream(before, st) && Respectful(s, before) && Exec(s, before) == Exec(Announce(s), gap)
  {
    assert before[1..] == gap;
  }

  /** One byte more. */
  lemma OneByteMore(st: Stream, mss: nat, before: seq<Event>, n: nat) returns (after: seq<Event>)
    requires |st.bytes| >= TCP_WND > n
    requires var h := Header(st, mss, before);
      h.nxt == st.base + n && h.wnd == TCP_WND - n && Snug(h) && h.ooseq == [] && !h.fin
    ensures FromStream(after, st) && Respectful(Header(st, mss, before), after)
    ensures var l := LaterHeader(st, mss, before, after); l.nxt == st.base + n + 1 && l.annWnd == TCP_WND - n - 1
  {
    var h := Header(st, mss, before);
    after := Transfer(st, st.base + n, st.base + n + 1, 1);
    TransferDelivers(h, st, st.base + n + 1, 1);
    TransferFromStream(st, st.base + n, st.base + n + 1, 1);
  }

  /** The field just at k units of u bytes, and one byte below. */
  lemma DropAt(k: nat, u: nat)
    requires 1 < u && k % 65536 >= 1
    ensures k * u >= 1 && (k * u - 1) / u % 65536 * u + 1 < k * u / u % 65536 * u
  {
    MulMono(1, k, u);
    BelowMultiple(k, u, k * u);
    assert (k - 1) % 65536 == k % 65536 - 1;
    UnitLess(k % 65536, u);
  }

  lemma BelowMultiple(k: nat, u: nat, m: nat)
    requires 1 < u && k >= 1 && m == k * u
    ensures m >= 1 && m / u == k && (m - 1) / u == k - 1
  {
    MulMono(1, k, u);
    QuotientOf(k, u, 0);
    QuotientOf(k - 1, u, u - 1);
    assert (k - 1) * u + (u - 1) == m - 1;
  }

  lemma UnitLess(x: nat, u: nat)
    requires 1 < u && x >= 1
    ensures (x - 1) * u + 1 < x * u
  {
    assert (x - 1) * u == x * u - u;
  }

  /** With w the window and u the unit of the field: just below a multiple of u the field is one less,
      which is u bytes, for one byte received. */
  lemma FieldDrops(w: nat, u: nat) returns (n: nat)
    requires 1 < u <= w
    ensures n < w && (w - n - 1) / u % 65536 * u + 1 < (w - n) / u % 65536 * u
  {
    var q := w / u;
    var k := if q % 65536 == 0 then q - 1 else q;
    MulMono(k, q, u);
    DropAt(k, u);
    n := w - k * u;
  }

  /** The field of a window that 32 bits hold. */
  lemma FieldOf(w: nat, scale: nat)
    requires w <= TCP_WND
    ensures WireWindow(w, scale) == w / Pow2(scale) % 65536 * Pow2(scale)
  {
    assert w % TWO32 == w;
  }

  lemma RetreatsWhenScaled(mss: nat, scale: nat)
    requires 1 < Pow2(scale) <= TCP_WND
    ensures !WireNeverRetreats(mss, scale)
  {
    var st := Stream(0, seq(TCP_WND, _ => 0));
    var n := FieldDrops(TCP_WND, Pow2(scale));
    FieldOf(TCP_WND - n, scale);
    FieldOf(TCP_WND - n - 1, scale);
    var before := AfterBytes(st, mss, 1460, n);
    var after := OneByteMore(st, mss, before, n);
    Retreats(st, mss, before, after, scale);
  }

  /** One run is enough. */
  lemma Retreats(st: Stream, mss: nat, before: seq<Event>, after: seq<Event>, scale: nat)
    requires HeaderRun(st, mss, before, after)
    requires WireEdge(LaterHeader(st, mss, before, after), scale) < WireEdge(Header(st, mss, before), scale)
    ensures !WireNeverRetreats(mss, scale)
  {
  }

  /** Without scaling the field holds the window modulo 65536: receiving keeps the edge, but when the
      application has consumed what was received it can jump left. */
  lemma RetreatsUnscaled(mss: nat)
    ensures !WireNeverRetreats(mss, 0)
  {
    var st := Stream(0, seq(TCP_WND, _ => 0));
    var n := 1548289;
    var before := AfterBytes(st, mss, 1460, n);
    var h := Header(st, mss, before);
    var after := [Consume(n)];
    assert after[1..] == [];
    assert Exec(h, after) == Recved(h, n);
    assert Recved(h, n).annWnd == TCP_WND;
    assert Pow2(0) == 1;
    assert WireEdge(LaterHeader(st, mss, before, after), 0) == n + 40960;
    assert WireEdge(h, 0) == n + 65535;
    Retreats(st, mss, before, after, 0);
  }

  /** Over every run the edge the peer reads never moves left exactly when the scale is so large that the
      field is always zero; so for no scale that section 2.3 of RFC 1323 allows, which are those up to 14. */
  lemma WireEdgeExactly(mss: nat, scale: nat)
    ensures WireNeverRetreats(mss, scale) <==> TCP_WND < Pow2(scale)
    ensures scale <= 14 ==> !WireNeverRetreats(mss, scale)
  {
    if TCP_WND < Pow2(scale) {
      forall st: Stream, before: seq<Event>, after: seq<Event> | HeaderRun(st, mss, before, after)
        ensures WireEdge(Header(st, mss, before), scale) <= WireEdge(LaterHeader(st, mss, before, after), scale)
      {
        HeaderWindow(st, mss, before, after);
        FieldZero(Header(st, mss, before).annWnd, scale);
        FieldZero(LaterHeader(st, mss, before, after).annWnd, scale);
      }
    } else if scale == 0 {
      RetreatsUnscaled(mss);
    } else {
      assert Pow2(scale) == 2 * Pow2(scale - 1);
      RetreatsWhenScaled(mss, scale);
    }
    if scale <= 14 {
      Pow2Bound(scale);
    }
  }

  lemma FieldZero(w: nat, scale: nat)
    requires w <= TCP_WND < Pow2(scale)
    ensures WireWindow(w, scale) == 0
  {
    FieldOf(w, scale);
    QuotientOf(0, Pow2(scale), w);
  }

  lemma {:induction false} Pow2Bound(scale: nat)
    requires scale <= 14
    ensures Pow2(scale) <= 16384
    decreases 14 - scale
  {
    if scale < 14 {
      Pow2Bound(scale + 1);
    } else {
      assert Pow2(4) == 16;
      assert Pow2(8) == 256;
      assert Pow2(12) == 4096;
    }
  }

  // ---------------------------------------------------------------------------------------------
  // The program
  // ---------------------------------------------------------------------------------------------

  /** tcp_oos_insert_segment. */
  method OosInsertSegment(seg: Seg, following: seq<Seg>) returns (r: seq<Seg>)
    ensures r == Splice(seg, following)
  {
    var cseg, next := seg, following;
    if cseg.fin {
      next := [];
    } else {
      while next != [] && cseg.End() >= next[0].End()
        invariant Absorb(cseg, next, false) == Absorb(seg, following, false)
        decreases |next|
      {
        if next[0].fin {
          cseg := cseg.(fin := true);
        }
        next := next[1..];
      }
      if next != [] && cseg.End() > next[0].seqno && next[0].seqno >= cseg.seqno {
        cseg := cseg.(data := cseg.data[..next[0].seqno - cseg.seqno]);
      }
    }
    r := [cseg] + next;
  }

  /** The walk that queues an out-of-order segment. */
  method QueueOutOfOrder(q: seq<Seg>, seg: Seg, right: int) returns (r: seq<Seg>)
    requires seg.seqno < right
    ensures r == Enqueue(q, seg, right)
  {
    if q == [] {
      return [seg];
    }
    var i := 0;
    while true
      invariant i < |q| && Place(q, i, seg, right) == Place(q, 0, seg, right)
      decreases |q| - i
    {
      if seg.seqno == q[i].seqno {
        if |seg.data| > |q[i].data| {
          var tail := OosInsertSegment(seg, q[i..]);
          return q[..i] + tail;
        }
        return q;
      }
      if i == 0 {
        if seg.seqno < q[0].seqno {
          r := OosInsertSegment(seg, q);
          return;
        }
      } else if q[i - 1].seqno + 1 <= seg.seqno <= q[i].seqno - 1 {
        var prev := TrimTo(q[i - 1], seg.seqno);
        var tail := OosInsertSegment(seg, q[i..]);
        return q[..i - 1] + [prev] + tail;
      }
      if i + 1 == |q| {
        if seg.seqno > q[i].seqno && !q[i].fin {
          return q[..i] + [TrimTo(q[i], seg.seqno)] + [ClipRight(seg, right)];
        }
        return q;
      }
      i := i + 1;
    }
  }

  /** The in-sequence segment takes over what it covers of the queue. */
  method PruneQueue(seg: Seg, ooseq: seq<Seg>) returns (inseg: Seg, next: seq<Seg>)
    ensures (inseg, next) == MergeInOrder(seg, ooseq)
  {
    inseg, next := seg, ooseq;
    if seg.fin {
      next := [];
    } else {
      while next != [] && inseg.seqno + inseg.TcpLen() >= next[0].End()
        invariant Absorb(inseg, next, true) == Absorb(seg, ooseq, true)
        decreases |next|
      {
        if next[0].fin {
          inseg := inseg.(fin := true);
        }
        next := next[1..];
      }
      if next != [] && next[0].seqno >= inseg.seqno && inseg.seqno + inseg.TcpLen() > next[0].seqno {
        inseg := TrimTo(inseg, next[0].seqno);
      }
    }
  }

  /** The receive fields of struct tcp_pcb. */
  class Receiver {
    var rcvNxt: nat
    var rcvWnd: int
    var rcvAnnWnd: int
    var rcvAnnRightEdge: int
    const mss: nat
    var ooseq: seq<Seg>
    var recvData: seq<byte>
    var gotFin: bool

    ghost function Model(): Rx
      reads this
    {
      Rx(rcvNxt, rcvWnd, rcvAnnWnd, rcvAnnRightEdge, mss, ooseq, recvData, gotFin)
    }

    constructor (st: Stream, mss: nat)
      ensures Model() == Opened(st, mss)
    {
      rcvNxt, rcvWnd, rcvAnnWnd, rcvAnnRightEdge := st.base, TCP_WND, TCP_WND, st.base;
      this.mss := mss;
      ooseq, recvData, gotFin := [], [], false;
    }

    /** tcp_update_rcv_ann_wnd; returns how much extra window an update would announce. */
    method UpdateRcvAnnWnd() returns (inflation: int)
      modifies this`rcvAnnWnd
      ensures Model() == UpdateAnnounced(old(Model()))
      ensures inflation == Inflation(old(Model())) >= 0
      ensures inflation > 0 ==> rcvAnnRightEdge + inflation == rcvNxt + rcvAnnWnd
    {
      var newRightEdge := rcvNxt + rcvWnd;
      if newRightEdge >= rcvAnnRightEdge + Min(TCP_WND / 2, mss) {
        rcvAnnWnd := rcvWnd;
        return newRightEdge - rcvAnnRightEdge;
      }
      if rcvNxt > rcvAnnRightEdge {
        rcvAnnWnd := 0;
      } else {
        rcvAnnWnd := rcvAnnRightEdge - rcvNxt;
      }
      inflation := 0;
    }

    /** tcp_recved: the application has processed `len` bytes; a large change of the edge is announced
        at once. */
    method TcpRecved(len: nat)
      modifies this
      ensures var r := Recved(old(Model()), len);
              Model() == if Inflation(r) >= TCP_WND / 4 then Announce(r) else r
    {
      rcvWnd := rcvWnd + len;
      // the field is unsigned: below zero it is larger than TCP_WND
      if rcvWnd > TCP_WND || rcvWnd < 0 {
        rcvWnd := TCP_WND;
      }
      var inflation := UpdateRcvAnnWnd();
      if inflation >= TCP_WND / 4 {
        Output();
      }
    }

    /** Any segment going out (tcp_output_segment, tcp_output_alloc_header). */
    method Output()
      modifies this`rcvAnnRightEdge
      ensures Model() == Announce(old(Model()))
    {
      rcvAnnRightEdge := rcvNxt + rcvAnnWnd;
    }

    /** Hand one in-sequence segment to the application. */
    method PassUp(seg: Seg)
      modifies this`rcvNxt, this`rcvWnd, this`rcvAnnWnd, this`recvData, this`gotFin
      ensures Model() == Deliver(old(Model()), seg)
    {
      rcvNxt := seg.seqno + seg.TcpLen();
      rcvWnd := rcvWnd - seg.TcpLen();
      var _ := UpdateRcvAnnWnd();
      recvData := recvData + seg.data;
      gotFin := gotFin || seg.fin;
    }

    /** Pass up what the queue can now contribute. */
    method DrainQueue()
      modifies this
      ensures Model() == Drain(old(Model()))
    {
      while ooseq != [] && ooseq[0].seqno == rcvNxt
        invariant Drain(Model()) == Drain(old(Model()))
        decreases |ooseq|
      {
        var cseg := ooseq[0];
        PassUp(cseg);
        ooseq := ooseq[1..];
      }
    }

    /** The in-sequence branch of tcp_receive. */
    method ReceiveInOrder(seg: Seg)
      requires seg.seqno == rcvNxt && 0 < rcvWnd
      modifies this
      ensures Model() == InOrder(old(Model()), seg)
    {
      ghost var s := Model();
      var inseg := ClipRight(seg, rcvNxt + rcvWnd);
      var merged, rest := PruneQueue(inseg, ooseq);
      PassUp(merged);
      ooseq := rest;
      assert Model() == Deliver(s, merged).(ooseq := rest);
      DrainQueue();
    }

    /** The payload part of tcp_receive.  `copied` and `acked` are the outcomes of the two allocations. */
    method TcpReceive(seg: Seg, copied: bool, acked: bool)
      modifies this
      ensures Model() == Receive(old(Model()), seg, copied, acked)
    {
      if seg.TcpLen() == 0 || gotFin {
        return;
      }
      var inseg := seg;
      if seg.seqno + 1 <= rcvNxt <= seg.seqno + seg.TcpLen() - 1 {
        inseg := Seg(rcvNxt, seg.data[rcvNxt - seg.seqno..], seg.fin);
      }
      if rcvNxt <= inseg.seqno <= rcvNxt + rcvWnd - 1 {
        if rcvNxt == inseg.seqno {
          ReceiveInOrder(inseg);
        } else {
          if acked {
            Output();
          }
          if copied {
            ooseq := QueueOutOfOrder(ooseq, inseg, rcvNxt + rcvWnd);
          }
        }
      } else if acked {
        Output();
      }
    }
  }
}
