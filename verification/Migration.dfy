/** Flow-group migration between CPUs (dp/core/ethfg.c): a state machine whose steps are the handlers,
    over any number of CPUs, flow groups and packets.

    `TransitionsExact`, `DeliveredOnce`, `DeliveredByOwner` and `DeliveredInOrder` are the results, for
    every run. A packet is accepted when a CPU queues it; `key` and `id` record when. */
module Migration {
  import opened Common
  const ETH_RX_MAX_DEPTH: nat := 32768

  /** An accepted packet: the number of its acceptance, its flow group, and the phase of the group it was
      accepted in: an even number for the CPU that owns or gives up the group, the odd number after it for
      the CPU that the group moves to. */
  datatype Pkt = Pkt(id: nat, fg: nat, key: nat)

  /** struct eth_fg. */
  datatype Fg = Fg(cur: int, prev: int, target: int, moving: bool)

  /** struct migration_info. */
  datatype Info = Info(prev: int, target: int, groups: set<nat>)

  /** What waits in the run list of a CPU: early_transition_handler_prev, or transition_handler_target
      with the migration_info of the CPU `from`. */
  datatype Runner = Early | Finish(from: nat)

  /** The per-CPU variables. */
  datatype Cpu = Cpu(rx: seq<Pkt>, remote: seq<Pkt>, local: seq<Pkt>, info: Info, timer: bool,
                     runs: seq<Runner>)

  /** A call of eth_input: the packet, the CPU making it, and the CPU owning the group at that time. */
  datatype Delivery = Delivery(pkt: Pkt, cpu: nat, owner: int)

  /** `eras` counts the completed moves of each group; `log` has the accepted packets, `done` the
      deliveries. */
  datatype Sys = Sys(fgs: seq<Fg>, cpus: seq<Cpu>, eras: seq<nat>, log: seq<Pkt>, done: seq<Delivery>)

  // ---------------------------------------------------------------------------------------------
  // The steps
  // ---------------------------------------------------------------------------------------------

  function SetCpu(s: Sys, c: nat, u: Cpu): Sys
    requires c < |s.cpus|
  {
    s.(cpus := s.cpus[c := u])
  }

  /** A packet of group `g` with the next number. */
  function Next(s: Sys, g: nat, key: nat): Pkt {
    Pkt(|s.log|, g, key)
  }

  function Owner(f: Fg): int {
    if f.moving then -1 else f.cur
  }

  ghost predicate RecvOk(s: Sys, c: nat, g: nat) {
    && c < |s.cpus| && g < |s.fgs| == |s.eras|
    && (s.fgs[g].moving ==> 0 <= s.fgs[g].target < |s.cpus| && 0 <= s.fgs[g].prev < |s.cpus|)
    && (s.fgs[g].moving && s.fgs[g].target == c ==> 0 <= s.cpus[c].info.prev < |s.cpus|)
  }

  /** The CPU that owns the group puts the packet in its receive queue. */
  function RecvOwn(s: Sys, c: nat, g: nat): Sys
    requires c < |s.cpus| && g < |s.eras|
  {
    var p := Next(s, g, 2 * s.eras[g]);
    SetCpu(s, c, s.cpus[c].(rx := s.cpus[c].rx + [p])).(log := s.log + [p])
  }

  /** eth_recv_at_prev: into the remote queue of the CPU it moves to. */
  function RecvPrev(s: Sys, t: nat, g: nat): Sys
    requires t < |s.cpus| && g < |s.eras|
  {
    var p := Next(s, g, 2 * s.eras[g]);
    SetCpu(s, t, s.cpus[t].(remote := s.cpus[t].remote + [p])).(log := s.log + [p])
  }

  /** eth_recv_at_target: into the local queue, and the first one tells the previous CPU to hurry. */
  function RecvTarget(s: Sys, c: nat, g: nat): Sys
    requires c < |s.cpus| && g < |s.eras| && 0 <= s.cpus[c].info.prev < |s.cpus|
  {
    var p, q := Next(s, g, 2 * s.eras[g] + 1), s.cpus[c].info.prev;
    var s1 := if s.cpus[c].local == [] then SetCpu(s, q, s.cpus[q].(runs := [Early] + s.cpus[q].runs)) else s;
    SetCpu(s1, c, s1.cpus[c].(local := s1.cpus[c].local + [p])).(log := s.log + [p])
  }

  /** eth_recv and eth_recv_handle_fg_transition on CPU c. */
  function Recv(s: Sys, c: nat, g: nat): Sys
    requires RecvOk(s, c, g)
  {
    var f := s.fgs[g];
    if !f.moving && f.cur == c then (if |s.cpus[c].rx| >= ETH_RX_MAX_DEPTH then s else RecvOwn(s, c, g))
    else if f.moving && f.prev == c then RecvPrev(s, f.target, g)
    else if f.moving && f.target == c then RecvTarget(s, c, g)
    else s
  }

  /** eth_input on CPU c for a queue of packets. */
  function Deliver(q: seq<Pkt>, c: nat, fgs: seq<Fg>): (d: seq<Delivery>)
    ensures |d| == |q|
  {
    if q == [] then []
    else [Delivery(q[0], c, if q[0].fg < |fgs| then Owner(fgs[q[0].fg]) else -1)] + Deliver(q[1..], c, fgs)
  }

  /** eth_process_recv_queue on CPU c. */
  function Process(s: Sys, c: nat): Sys
    requires c < |s.cpus|
  {
    var rx := s.cpus[c].rx;
    if rx == [] then s
    else SetCpu(s, c, s.cpus[c].(rx := rx[1..])).(done := s.done + Deliver([rx[0]], c, s.fgs))
  }

  /** The packets of a group in a queue, and the others. */
  function Only(q: seq<Pkt>, g: nat): seq<Pkt> {
    if q == [] then [] else (if q[0].fg == g then [q[0]] else []) + Only(q[1..], g)
  }

  function Without(q: seq<Pkt>, g: nat): seq<Pkt> {
    if q == [] then [] else (if q[0].fg != g then [q[0]] else []) + Without(q[1..], g)
  }

  ghost predicate AssignableOne(s: Sys, c: nat, t: nat, g: nat) {
    && c < |s.cpus| && t < |s.cpus| && g < |s.fgs|
    && !s.fgs[g].moving && (s.fgs[g].cur == t || s.fgs[g].cur == -1 || s.fgs[g].cur == c)
  }

  /** The group will have to move. */
  predicate Moves(f: Fg, t: nat) {
    f.cur != t && f.cur != -1
  }

  /** eth_fg_assign_single_to_cpu on CPU c, with migrate_pkts_to_remote. */
  function AssignOne(s: Sys, c: nat, t: nat, g: nat): Sys
    requires AssignableOne(s, c, t, g)
  {
    var f := s.fgs[g];
    if f.cur == t then s
    else if f.cur == -1 then s.(fgs := s.fgs[g := f.(cur := t)])
    else
      var q := s.cpus[c].rx;
      var s1 := SetCpu(s, c, s.cpus[c].(rx := Without(q, g)));
      SetCpu(s1, t, s1.cpus[t].(remote := s1.cpus[t].remote + Only(q, g)))
        .(fgs := s.fgs[g := Fg(-1, f.cur, t, true)])
  }

  ghost predicate AssignableAll(s: Sys, c: nat, t: nat, gs: seq<nat>)
    decreases |gs|
  {
    gs != [] ==> AssignableOne(s, c, t, gs[0]) && AssignableAll(AssignOne(s, c, t, gs[0]), c, t, gs[1..])
  }

  function AssignAll(s: Sys, c: nat, t: nat, gs: seq<nat>): Sys
    requires AssignableAll(s, c, t, gs)
    decreases |gs|
  {
    if gs == [] then s else AssignAll(AssignOne(s, c, t, gs[0]), c, t, gs[1..])
  }

  /** The bitmap of the groups that really move. */
  function Moved(fgs: seq<Fg>, t: nat, gs: seq<nat>): set<nat> {
    set g | g in gs && g < |fgs| && Moves(fgs[g], t)
  }

  /** What the assertions of eth_fg_assign_to_cpu ask for. */
  ghost predicate Assignable(s: Sys, c: nat, t: nat, gs: seq<nat>) {
    && c < |s.cpus| && t < |s.cpus| && s.cpus[c].info.prev == -1 && s.cpus[t].info.prev == -1
    && AssignableAll(s, c, t, gs) && |AssignAll(s, c, t, gs).cpus| == |s.cpus|
  }

  /** eth_fg_assign_to_cpu on CPU c. */
  function Assign(s: Sys, c: nat, t: nat, gs: seq<nat>): Sys
    requires Assignable(s, c, t, gs)
  {
    var moved := Moved(s.fgs, t, gs);
    var s1 := AssignAll(s, c, t, gs);
    if moved == {} then SetCpu(s1, c, s1.cpus[c].(info := s1.cpus[c].info.(groups := {})))
    else
      var info := Info(c, t, moved);
      var s2 := SetCpu(s1, c, s1.cpus[c].(info := info, timer := true));
      SetCpu(s2, t, s2.cpus[t].(info := info))
  }

  /** Hand over to the CPU the groups of c move to. */
  function PassOn(s: Sys, c: nat): Sys
    requires c < |s.cpus| && 0 <= s.cpus[c].info.target < |s.cpus|
  {
    var s1 := SetCpu(s, c, s.cpus[c].(timer := false));
    var t := s.cpus[c].info.target;
    SetCpu(s1, t, s1.cpus[t].(runs := [Finish(c)] + s1.cpus[t].runs))
  }

  ghost predicate TimerOk(s: Sys, c: nat) {
    c < |s.cpus| && s.cpus[c].timer && 0 <= s.cpus[c].info.target < |s.cpus|
  }

  /** transition_handler_prev: the timeout of CPU c has expired. */
  function TimerFires(s: Sys, c: nat): Sys
    requires TimerOk(s, c)
  {
    PassOn(s, c)
  }

  /** Runner i leaves the run list of CPU c. */
  function Unlist(s: Sys, c: nat, i: nat): Sys
    requires c < |s.cpus| && i < |s.cpus[c].runs|
  {
    SetCpu(s, c, s.cpus[c].(runs := s.cpus[c].runs[..i] + s.cpus[c].runs[i + 1..]))
  }

  /** early_transition_handler_prev on CPU c, after its poll (which is a number of receptions). */
  function RunEarly(s: Sys, c: nat, i: nat): Sys
    requires c < |s.cpus| && i < |s.cpus[c].runs| && (s.cpus[c].timer ==> 0 <= s.cpus[c].info.target < |s.cpus|)
  {
    var s1 := Unlist(s, c, i);
    if !s.cpus[c].timer then s1 else PassOn(s1, c)
  }

  /** The groups of a bitmap arrive. */
  function Arrived(fgs: seq<Fg>, groups: set<nat>): (r: seq<Fg>)
    ensures |r| == |fgs|
  {
    seq(|fgs|, g requires 0 <= g < |fgs| => if g in groups then Fg(fgs[g].target, -1, -1, false) else fgs[g])
  }

  function Aged(eras: seq<nat>, groups: set<nat>): (r: seq<nat>)
    ensures |r| == |eras|
  {
    seq(|eras|, g requires 0 <= g < |eras| => if g in groups then eras[g] + 1 else eras[g])
  }

  /** transition_handler_target on CPU c for the migration of CPU q. */
  function RunFinish(s: Sys, c: nat, i: nat, q: nat): Sys
    requires c < |s.cpus| && i < |s.cpus[c].runs| && q < |s.cpus|
  {
    var groups := s.cpus[q].info.groups;
    var s1 := Unlist(s, c, i);
    var fgs := Arrived(s.fgs, groups);
    var s2 := SetCpu(s1, c, s1.cpus[c].(remote := [], local := [], info := s1.cpus[c].info.(prev := -1)));
    SetCpu(s2, q, s2.cpus[q].(info := s2.cpus[q].info.(prev := -1)))
      .(fgs := fgs, eras := Aged(s.eras, groups),
        done := s.done + Deliver(s.cpus[c].remote, c, fgs) + Deliver(s.cpus[c].local, c, fgs))
  }

  // ---------------------------------------------------------------------------------------------
  // Who is moving what
  // ---------------------------------------------------------------------------------------------

  /** A group in transition belongs to the active migration of its previous CPU. */
  ghost predicate FgOk(s: Sys, g: nat)
    requires g < |s.fgs|
  {
    var f := s.fgs[g];
    if f.moving then
      && 0 <= f.prev < |s.cpus| && 0 <= f.target < |s.cpus| && f.prev != f.target && f.cur == -1
      && s.cpus[f.prev].info.prev == f.prev && s.cpus[f.prev].info.target == f.target
      && g in s.cpus[f.prev].info.groups
    else -1 <= f.cur < |s.cpus|
  }

  /** The migrations that a run list is to finish. */
  function Finishers(runs: seq<Runner>): seq<nat> {
    if runs == [] then [] else (if runs[0].Finish? then [runs[0].from] else []) + Finishers(runs[1..])
  }

  ghost predicate GroupsOk(s: Sys, c: nat, groups: set<nat>) {
    forall g | g in groups :: g < |s.fgs| && s.fgs[g].moving && s.fgs[g].prev == c
  }

  /** CPU c is the source of an active migration: the target knows, and either the timeout is pending or
      the target has been told to finish. */
  ghost predicate SourceOk(s: Sys, c: nat)
    requires c < |s.cpus|
  {
    var u := s.cpus[c];
    && 0 <= u.info.target < |s.cpus| && u.info.target != c && s.cpus[u.info.target].info == u.info
    && GroupsOk(s, c, u.info.groups)
    && (u.timer <==> Finishers(s.cpus[u.info.target].runs) == [])
  }

  ghost predicate CpuOk(s: Sys, c: nat)
    requires c < |s.cpus|
  {
    var u := s.cpus[c];
    && -1 <= u.info.prev < |s.cpus|
    && (u.info.prev == c ==> SourceOk(s, c))
    && (u.info.prev != -1 && u.info.prev != c ==> u.info.target == c && s.cpus[u.info.prev].info == u.info)
    && (u.timer ==> u.info.prev == c)
    && (u.info.prev == -1 || u.info.prev == c ==> u.remote == [] && u.local == [])
  }

  /** A finish in a run list is that of the active migration to this CPU, and the only one. */
  ghost predicate RunsOk(s: Sys, c: nat)
    requires c < |s.cpus|
  {
    var u := s.cpus[c];
    Finishers(u.runs) == [] || (Finishers(u.runs) == [u.info.prev] && u.info.prev != c)
  }

  ghost predicate Control(s: Sys) {
    && |s.eras| == |s.fgs|
    && (forall g | 0 <= g < |s.fgs| :: FgOk(s, g))
    && (forall c | 0 <= c < |s.cpus| :: CpuOk(s, c))
    && (forall c | 0 <= c < |s.cpus| :: RunsOk(s, c))
  }

  // ---------------------------------------------------------------------------------------------
  // Where the packets are
  // ---------------------------------------------------------------------------------------------

  ghost predicate InRx(s: Sys, c: nat, p: Pkt) {
    p.fg < |s.fgs| && !s.fgs[p.fg].moving && s.fgs[p.fg].cur == c
  }

  ghost predicate InTransit(s: Sys, c: nat, p: Pkt) {
    p.fg < |s.fgs| && s.fgs[p.fg].moving && s.fgs[p.fg].target == c
  }

  ghost predicate PlacedAt(s: Sys, c: nat)
    requires c < |s.cpus|
  {
    && (forall i | 0 <= i < |s.cpus[c].rx| :: InRx(s, c, s.cpus[c].rx[i]))
    && (forall i | 0 <= i < |s.cpus[c].remote| :: InTransit(s, c, s.cpus[c].remote[i]))
    && (forall i | 0 <= i < |s.cpus[c].local| :: InTransit(s, c, s.cpus[c].local[i]))
  }

  ghost predicate Placed(s: Sys) {
    forall c | 0 <= c < |s.cpus| :: PlacedAt(s, c)
  }

  // ---------------------------------------------------------------------------------------------
  // One group
  // ---------------------------------------------------------------------------------------------

  /** What has been delivered of a group, what waits in front and behind, everything accepted, and how
      many moves it has made. */
  datatype View = View(done: seq<Pkt>, front: seq<Pkt>, back: seq<Pkt>, all: seq<Pkt>, era: nat)

  function OnlyDone(d: seq<Delivery>, g: nat): seq<Pkt> {
    if d == [] then [] else (if d[0].pkt.fg == g then [d[0].pkt] else []) + OnlyDone(d[1..], g)
  }

  function Front(s: Sys, g: nat): seq<Pkt>
    requires g < |s.fgs|
  {
    var f := s.fgs[g];
    if f.moving then (if 0 <= f.target < |s.cpus| then Only(s.cpus[f.target].remote, g) else [])
    else if 0 <= f.cur < |s.cpus| then Only(s.cpus[f.cur].rx, g) else []
  }

  function Back(s: Sys, g: nat): seq<Pkt>
    requires g < |s.fgs|
  {
    var f := s.fgs[g];
    if f.moving && 0 <= f.target < |s.cpus| then Only(s.cpus[f.target].local, g) else []
  }

  function ViewOf(s: Sys, g: nat): View
    requires g < |s.fgs| == |s.eras|
  {
    View(OnlyDone(s.done, g), Front(s, g), Back(s, g), Only(s.log, g), s.eras[g])
  }

  /** p comes before q. */
  predicate Before(p: Pkt, q: Pkt) {
    p.key < q.key || (p.key == q.key && p.id < q.id)
  }

  ghost predicate Ordered(l: seq<Pkt>) {
    forall i, j | 0 <= i < j < |l| :: Before(l[i], l[j])
  }

  predicate InPast(p: Pkt, era: nat, n: nat) {
    p.id < n && p.key <= 2 * era
  }

  predicate InNext(p: Pkt, era: nat, n: nat) {
    p.id < n && p.key == 2 * era + 1
  }

  /** The line of a group: delivered, in front, behind. */
  function Line(v: View): seq<Pkt> {
    v.done + v.front + v.back
  }

  ghost predicate ViewOk(v: View, n: nat) {
    && Ordered(Line(v))
    && (forall i | 0 <= i < |v.done| :: InPast(v.done[i], v.era, n))
    && (forall i | 0 <= i < |v.front| :: InPast(v.front[i], v.era, n))
    && (forall i | 0 <= i < |v.back| :: InNext(v.back[i], v.era, n))
    && multiset(Line(v)) == multiset(v.all)
  }

  lemma ViewLater(v: View, n: nat, m: nat)
    requires ViewOk(v, n) && n <= m
    ensures ViewOk(v, m)
  {
  }

  /** A packet accepted by the CPU that has or gives up the group. */
  lemma ViewFront(v: View, p: Pkt, n: nat, w: View)
    requires ViewOk(v, n) && p.id == n && p.key == 2 * v.era
    requires w == v.(front := v.front + [p], all := v.all + [p])
    ensures ViewOk(w, n + 1)
  {
    var a, b := v.done + v.front, v.back;
    assert Line(v) == a + b && Line(w) == a + [p] + b;
    forall i, j | 0 <= i < j < |Line(w)|
      ensures Before(Line(w)[i], Line(w)[j])
    {
      if j < |a| {
        assert Line(v)[i] == Line(w)[i] && Line(v)[j] == Line(w)[j];
      } else if j > |a| && i < |a| {
        assert Line(v)[i] == Line(w)[i] && Line(v)[j - 1] == Line(w)[j];
      } else if i > |a| {
        assert Line(v)[i - 1] == Line(w)[i] && Line(v)[j - 1] == Line(w)[j];
      }
    }
    assert multiset(Line(w)) == multiset(Line(v)) + multiset{p};
  }

  /** A packet accepted by the CPU the group moves to. */
  lemma ViewBack(v: View, p: Pkt, n: nat, w: View)
    requires ViewOk(v, n) && p.id == n && p.key == 2 * v.era + 1
    requires w == v.(back := v.back + [p], all := v.all + [p])
    ensures ViewOk(w, n + 1)
  {
    assert Line(w) == Line(v) + [p];
  }

  /** A delivery. */
  lemma ViewShift(v: View, n: nat, w: View)
    requires ViewOk(v, n) && v.front != []
    requires w == v.(done := v.done + [v.front[0]], front := v.front[1..])
    ensures ViewOk(w, n)
  {
    assert v.front == [v.front[0]] + v.front[1..];
    assert Line(w) == Line(v);
  }

  /** The end of a move: everything waiting is delivered. */
  lemma ViewFinish(v: View, n: nat, w: View)
    requires ViewOk(v, n) && w == View(Line(v), [], [], v.all, v.era + 1)
    ensures ViewOk(w, n)
  {
    assert Line(w) == Line(v);
  }

  // ---------------------------------------------------------------------------------------------
  // Queues and groups
  // ---------------------------------------------------------------------------------------------

  lemma {:induction false} OnlyAppend(a: seq<Pkt>, b: seq<Pkt>, g: nat, ab: seq<Pkt>)
    requires ab == a + b
    ensures Only(ab, g) == Only(a, g) + Only(b, g)
    decreases |a|
  {
    if a == [] {
      assert ab == b;
    } else {
      var rest := a[1..];
      assert ab[1..] == rest + b;
      OnlyAppend(rest, b, g, ab[1..]);
      Regroup(if a[0].fg == g then [a[0]] else [], Only(rest, g), Only(b, g));
    }
  }

  lemma OnlyOne(p: Pkt, g: nat)
    ensures Only([p], g) == if p.fg == g then [p] else []
  {
    assert [p][1..] == [];
  }

  /** What a queue without packets of the group has of it. */
  lemma {:induction false} OnlyNone(q: seq<Pkt>, g: nat)
    requires forall i | 0 <= i < |q| :: q[i].fg != g
    ensures Only(q, g) == []
    decreases |q|
  {
    if q != [] {
      OnlyNone(q[1..], g);
    }
  }

  lemma {:induction false} OnlyAll(q: seq<Pkt>, g: nat, i: nat)
    requires i < |Only(q, g)|
    ensures Only(q, g)[i].fg == g && Only(q, g)[i] in q
    decreases |q|
  {
    if q != [] {
      if q[0].fg != g {
        OnlyAll(q[1..], g, i);
      } else if i > 0 {
        OnlyAll(q[1..], g, i - 1);
      }
    }
  }

  lemma {:induction false} OnlyOfOnly(q: seq<Pkt>, g: nat, h: nat)
    ensures Only(Only(q, g), h) == if g == h then Only(q, g) else []
    decreases |q|
  {
    if q != [] {
      OnlyOfOnly(q[1..], g, h);
      var r := Only(q, g);
      if q[0].fg == g {
        assert r[1..] == Only(q[1..], g);
      } else {
        assert r == Only(q[1..], g);
      }
    }
  }

  lemma {:induction false} OnlyOfWithout(q: seq<Pkt>, g: nat, h: nat)
    ensures Only(Without(q, g), h) == if g == h then [] else Only(q, h)
    decreases |q|
  {
    if q != [] {
      OnlyOfWithout(q[1..], g, h);
      var r := Without(q, g);
      if q[0].fg != g {
        assert r[1..] == Without(q[1..], g);
      } else {
        assert r == Without(q[1..], g);
      }
    }
  }

  lemma {:induction false} WithoutAll(q: seq<Pkt>, g: nat, i: nat)
    requires i < |Without(q, g)|
    ensures Without(q, g)[i].fg != g && Without(q, g)[i] in q
    decreases |q|
  {
    if q != [] {
      if q[0].fg == g {
        WithoutAll(q[1..], g, i);
      } else if i > 0 {
        WithoutAll(q[1..], g, i - 1);
      }
    }
  }

  lemma {:induction false} OnlyDoneAppend(a: seq<Delivery>, b: seq<Delivery>, g: nat, ab: seq<Delivery>)
    requires ab == a + b
    ensures OnlyDone(ab, g) == OnlyDone(a, g) + OnlyDone(b, g)
    decreases |a|
  {
    if a == [] {
      assert ab == b;
    } else {
      var rest := a[1..];
      assert ab[1..] == rest + b;
      OnlyDoneAppend(rest, b, g, ab[1..]);
      Regroup(if a[0].pkt.fg == g then [a[0].pkt] else [], OnlyDone(rest, g), OnlyDone(b, g));
    }
  }

  lemma {:induction false} OnlyDelivered(q: seq<Pkt>, c: nat, fgs: seq<Fg>, g: nat)
    ensures OnlyDone(Deliver(q, c, fgs), g) == Only(q, g)
    decreases |q|
  {
    if q != [] {
      var d := Deliver(q, c, fgs);
      assert d[1..] == Deliver(q[1..], c, fgs);
      OnlyDelivered(q[1..], c, fgs, g);
    }
  }

  // ---------------------------------------------------------------------------------------------
  // Run lists
  // ---------------------------------------------------------------------------------------------

  lemma FinishersFirst(r: Runner, runs: seq<Runner>)
    ensures Finishers([r] + runs) == (if r.Finish? then [r.from] else []) + Finishers(runs)
  {
    assert ([r] + runs)[1..] == runs;
  }

  lemma {:induction false} FinishersRemoved(runs: seq<Runner>, i: nat)
    requires i < |runs| && |Finishers(runs)| <= 1
    ensures runs[i].Early? ==> Finishers(runs[..i] + runs[i + 1..]) == Finishers(runs)
    ensures runs[i].Finish? ==> Finishers(runs) == [runs[i].from] && Finishers(runs[..i] + runs[i + 1..]) == []
    decreases i
  {
    var r := runs[..i] + runs[i + 1..];
    if i == 0 {
      assert r == runs[1..];
    } else {
      assert r[1..] == runs[1..][..i - 1] + runs[1..][i..];
      FinishersRemoved(runs[1..], i - 1);
    }
  }

  // ---------------------------------------------------------------------------------------------
  // Steps that do not touch the ownership
  // ---------------------------------------------------------------------------------------------

  ghost predicate Alike(u: Cpu, v: Cpu) {
    u.info == v.info && u.timer == v.timer && Finishers(u.runs) == Finishers(v.runs)
  }

  ghost predicate QuietAt(s: Sys, c: nat)
    requires c < |s.cpus|
  {
    s.cpus[c].info.prev == -1 || s.cpus[c].info.prev == c ==> s.cpus[c].remote == [] && s.cpus[c].local == []
  }

  lemma ControlFramed(s: Sys, r: Sys)
    requires Control(s) && r.fgs == s.fgs && r.eras == s.eras && |r.cpus| == |s.cpus|
    requires forall c | 0 <= c < |s.cpus| :: Alike(s.cpus[c], r.cpus[c])
    requires forall c | 0 <= c < |s.cpus| :: QuietAt(r, c)
    ensures Control(r)
  {
    forall g | 0 <= g < |r.fgs|
      ensures FgOk(r, g)
    {
      assert FgOk(s, g);
    }
    forall c | 0 <= c < |r.cpus|
      ensures CpuOk(r, c) && RunsOk(r, c)
    {
      assert CpuOk(s, c) && RunsOk(s, c) && Alike(s.cpus[c], r.cpus[c]) && QuietAt(r, c);
    }
  }

  /** Migrations are pairs of CPUs: a CPU that has a part in one has a part in no other. */
  lemma OneMigration(s: Sys, d: nat, t: nat)
    requires Control(s) && d < |s.cpus| && t < |s.cpus| && s.cpus[d].info.prev == d && s.cpus[d].info.target == t
    ensures t != d && s.cpus[t].info == s.cpus[d].info && s.cpus[t].info.prev == d
  {
    assert CpuOk(s, d);
  }

  lemma RecvReady(s: Sys, c: nat, g: nat)
    requires Control(s) && c < |s.cpus| && g < |s.fgs|
    ensures RecvOk(s, c, g)
    ensures s.fgs[g].moving ==>
              s.cpus[s.fgs[g].target].info.prev != -1 && s.cpus[s.fgs[g].target].info.prev != s.fgs[g].target
  {
    assert FgOk(s, g);
    if s.fgs[g].moving {
      OneMigration(s, s.fgs[g].prev, s.fgs[g].target);
    }
  }

  lemma RecvAlike(s: Sys, c: nat, g: nat, d: nat)
    requires RecvOk(s, c, g) && d < |s.cpus| && QuietAt(s, d)
    requires s.fgs[g].moving ==>
               s.cpus[s.fgs[g].target].info.prev != -1 && s.cpus[s.fgs[g].target].info.prev != s.fgs[g].target
    ensures |Recv(s, c, g).cpus| == |s.cpus| && Alike(s.cpus[d], Recv(s, c, g).cpus[d]) && QuietAt(Recv(s, c, g), d)
  {
    FinishersFirst(Early, s.cpus[d].runs);
  }

  lemma RecvControl(s: Sys, c: nat, g: nat)
    requires Control(s) && c < |s.cpus| && g < |s.fgs|
    ensures RecvOk(s, c, g) && Control(Recv(s, c, g))
  {
    RecvReady(s, c, g);
    var r := Recv(s, c, g);
    forall d | 0 <= d < |s.cpus|
      ensures Alike(s.cpus[d], r.cpus[d]) && QuietAt(r, d)
    {
      assert CpuOk(s, d);
      RecvAlike(s, c, g, d);
    }
    ControlFramed(s, r);
  }

  lemma RecvPlaced(s: Sys, c: nat, g: nat)
    requires Control(s) && Placed(s) && c < |s.cpus| && g < |s.fgs| && RecvOk(s, c, g)
    ensures Placed(Recv(s, c, g))
  {
    assert FgOk(s, g);
    var r := Recv(s, c, g);
    forall d | 0 <= d < |r.cpus|
      ensures PlacedAt(r, d)
    {
      assert PlacedAt(s, d);
    }
  }

  /** What a packet appended to the queue, or not, does to the part of group h. */
  lemma Queued(q: seq<Pkt>, p: Pkt, h: nat, r: seq<Pkt>)
    requires r == q + [p]
    ensures Only(r, h) == if p.fg == h then Only(q, h) + [p] else Only(q, h)
  {
    OnlyAppend(q, [p], h, r);
    OnlyOne(p, h);
  }

  /** Queues that stay the same. */
  ghost predicate SameQueue(u: Cpu, v: Cpu, rx: bool, remote: bool, local: bool) {
    (rx ==> u.rx == v.rx) && (remote ==> u.remote == v.remote) && (local ==> u.local == v.local)
  }

  /** What waits of a group, when only one kind of queue of CPU c changes. */
  lemma ChangedQueue(s: Sys, r: Sys, c: nat, h: nat, rx: bool, remote: bool, local: bool)
    requires c < |s.cpus| == |r.cpus| && r.fgs == s.fgs && h < |s.fgs|
    requires forall d | 0 <= d < |s.cpus| && d != c :: SameQueue(s.cpus[d], r.cpus[d], true, true, true)
    requires SameQueue(s.cpus[c], r.cpus[c], rx, remote, local)
    ensures Front(r, h) ==
              if s.fgs[h].moving && s.fgs[h].target == c && !remote then Only(r.cpus[c].remote, h)
              else if !s.fgs[h].moving && s.fgs[h].cur == c && !rx then Only(r.cpus[c].rx, h)
              else Front(s, h)
    ensures Back(r, h) ==
              if s.fgs[h].moving && s.fgs[h].target == c && !local then Only(r.cpus[c].local, h) else Back(s, h)
  {
    var f := s.fgs[h];
    if f.moving && 0 <= f.target < |s.cpus| && f.target != c {
      assert SameQueue(s.cpus[f.target], r.cpus[f.target], true, true, true);
    } else if !f.moving && 0 <= f.cur < |s.cpus| && f.cur != c {
      assert SameQueue(s.cpus[f.cur], r.cpus[f.cur], true, true, true);
    }
  }

  lemma RecvOwnView(s: Sys, c: nat, g: nat, h: nat)
    requires c < |s.cpus| && g < |s.fgs| == |s.eras| && h < |s.fgs| && !s.fgs[g].moving && s.fgs[g].cur == c
    ensures var v, p := ViewOf(s, h), Next(s, g, 2 * s.eras[g]);
      ViewOf(RecvOwn(s, c, g), h) == if g == h then v.(front := v.front + [p], all := v.all + [p]) else v
  {
    var r, p := RecvOwn(s, c, g), Next(s, g, 2 * s.eras[g]);
    Queued(s.log, p, h, r.log);
    Queued(s.cpus[c].rx, p, h, r.cpus[c].rx);
    ChangedQueue(s, r, c, h, false, true, true);
  }

  lemma RecvPrevView(s: Sys, t: nat, g: nat, h: nat)
    requires t < |s.cpus| && g < |s.fgs| == |s.eras| && h < |s.fgs| && s.fgs[g].moving && s.fgs[g].target == t
    ensures var v, p := ViewOf(s, h), Next(s, g, 2 * s.eras[g]);
      ViewOf(RecvPrev(s, t, g), h) == if g == h then v.(front := v.front + [p], all := v.all + [p]) else v
  {
    var r, p := RecvPrev(s, t, g), Next(s, g, 2 * s.eras[g]);
    Queued(s.log, p, h, r.log);
    Queued(s.cpus[t].remote, p, h, r.cpus[t].remote);
    ChangedQueue(s, r, t, h, true, false, true);
  }

  lemma RecvTargetView(s: Sys, c: nat, g: nat, h: nat)
    requires c < |s.cpus| && g < |s.fgs| == |s.eras| && h < |s.fgs| && s.fgs[g].moving && s.fgs[g].target == c
    requires 0 <= s.cpus[c].info.prev < |s.cpus|
    ensures var v, p := ViewOf(s, h), Next(s, g, 2 * s.eras[g] + 1);
      ViewOf(RecvTarget(s, c, g), h) == if g == h then v.(back := v.back + [p], all := v.all + [p]) else v
  {
    var r, p := RecvTarget(s, c, g), Next(s, g, 2 * s.eras[g] + 1);
    Queued(s.log, p, h, r.log);
    Queued(s.cpus[c].local, p, h, r.cpus[c].local);
    RecvTargetCpus(s, c, g);
    ChangedQueue(s, r, c, h, true, true, false);
  }

  lemma RecvTargetCpus(s: Sys, c: nat, g: nat)
    requires c < |s.cpus| && g < |s.eras| && 0 <= s.cpus[c].info.prev < |s.cpus|
    ensures var r := RecvTarget(s, c, g);
      && |r.cpus| == |s.cpus| && SameQueue(s.cpus[c], r.cpus[c], true, true, false)
      && forall d | 0 <= d < |s.cpus| && d != c :: SameQueue(s.cpus[d], r.cpus[d], true, true, true)
  {
  }

  lemma RecvView(s: Sys, c: nat, g: nat, h: nat)
    requires Control(s) && c < |s.cpus| && g < |s.fgs| && h < |s.fgs| && RecvOk(s, c, g)
    requires ViewOk(ViewOf(s, h), |s.log|)
    ensures var r := Recv(s, c, g); |r.fgs| == |r.eras| == |s.fgs| && ViewOk(ViewOf(r, h), |r.log|)
  {
    var f := s.fgs[g];
    if !f.moving && f.cur == c {
      RecvOwnSound(s, c, g, h);
    } else if f.moving && f.prev == c {
      RecvPrevSound(s, f.target, g, h);
    } else if f.moving && f.target == c {
      RecvTargetSound(s, c, g, h);
    }
  }

  lemma RecvOwnSound(s: Sys, c: nat, g: nat, h: nat)
    requires c < |s.cpus| && g < |s.fgs| == |s.eras| && h < |s.fgs| && !s.fgs[g].moving && s.fgs[g].cur == c
    requires ViewOk(ViewOf(s, h), |s.log|)
    ensures var r := RecvOwn(s, c, g); |r.fgs| == |r.eras| == |s.fgs| && ViewOk(ViewOf(r, h), |r.log|)
  {
    RecvOwnView(s, c, g, h);
    FrontMore(s, g, h, ViewOf(RecvOwn(s, c, g), h));
  }

  lemma RecvPrevSound(s: Sys, t: nat, g: nat, h: nat)
    requires t < |s.cpus| && g < |s.fgs| == |s.eras| && h < |s.fgs| && s.fgs[g].moving && s.fgs[g].target == t
    requires ViewOk(ViewOf(s, h), |s.log|)
    ensures var r := RecvPrev(s, t, g); |r.fgs| == |r.eras| == |s.fgs| && ViewOk(ViewOf(r, h), |r.log|)
  {
    RecvPrevView(s, t, g, h);
    FrontMore(s, g, h, ViewOf(RecvPrev(s, t, g), h));
  }

  lemma RecvTargetSound(s: Sys, c: nat, g: nat, h: nat)
    requires c < |s.cpus| && g < |s.fgs| == |s.eras| && h < |s.fgs| && s.fgs[g].moving && s.fgs[g].target == c
    requires 0 <= s.cpus[c].info.prev < |s.cpus|
    requires ViewOk(ViewOf(s, h), |s.log|)
    ensures var r := RecvTarget(s, c, g); |r.fgs| == |r.eras| == |s.fgs| && ViewOk(ViewOf(r, h), |r.log|)
  {
    RecvTargetView(s, c, g, h);
    BackMore(s, g, h, ViewOf(RecvTarget(s, c, g), h));
  }

  lemma FrontMore(s: Sys, g: nat, h: nat, w: View)
    requires g < |s.fgs| == |s.eras| && h < |s.fgs| && ViewOk(ViewOf(s, h), |s.log|)
    requires var v, p := ViewOf(s, h), Next(s, g, 2 * s.eras[g]);
      w == if g == h then v.(front := v.front + [p], all := v.all + [p]) else v
    ensures ViewOk(w, |s.log| + 1)
  {
    if g == h {
      ViewFront(ViewOf(s, h), Next(s, g, 2 * s.eras[g]), |s.log|, w);
    } else {
      ViewLater(w, |s.log|, |s.log| + 1);
    }
  }

  lemma BackMore(s: Sys, g: nat, h: nat, w: View)
    requires g < |s.fgs| == |s.eras| && h < |s.fgs| && ViewOk(ViewOf(s, h), |s.log|)
    requires var v, p := ViewOf(s, h), Next(s, g, 2 * s.eras[g] + 1);
      w == if g == h then v.(back := v.back + [p], all := v.all + [p]) else v
    ensures ViewOk(w, |s.log| + 1)
  {
    if g == h {
      ViewBack(ViewOf(s, h), Next(s, g, 2 * s.eras[g] + 1), |s.log|, w);
    } else {
      ViewLater(w, |s.log|, |s.log| + 1);
    }
  }

  lemma ProcessControl(s: Sys, c: nat)
    requires Control(s) && c < |s.cpus|
    ensures Control(Process(s, c))
  {
    var r := Process(s, c);
    forall d | 0 <= d < |s.cpus|
      ensures Alike(s.cpus[d], r.cpus[d]) && QuietAt(r, d)
    {
      assert CpuOk(s, d);
    }
    ControlFramed(s, r);
  }

  lemma ProcessPlaced(s: Sys, c: nat)
    requires Placed(s) && c < |s.cpus|
    ensures Placed(Process(s, c))
  {
    var r := Process(s, c);
    forall d | 0 <= d < |r.cpus|
      ensures PlacedAt(r, d)
    {
      assert PlacedAt(s, d);
      assert forall i | 0 <= i < |r.cpus[d].rx| :: r.cpus[d].rx[i] in s.cpus[d].rx;
    }
  }

  lemma ProcessViewIs(s: Sys, c: nat, h: nat)
    requires c < |s.cpus| && h < |s.fgs| == |s.eras| && s.cpus[c].rx != [] && InRx(s, c, s.cpus[c].rx[0])
    ensures var v, p := ViewOf(s, h), s.cpus[c].rx[0];
      if p.fg == h
      then v.front != [] && ViewOf(Process(s, c), h) == v.(done := v.done + [v.front[0]], front := v.front[1..])
      else ViewOf(Process(s, c), h) == v
  {
    var rx, r := s.cpus[c].rx, Process(s, c);
    var p, rest := rx[0], rx[1..];
    DoneOne(s.done, p, c, s.fgs, h, r.done);
    assert Only(rx, h) == (if p.fg == h then [p] else []) + Only(rest, h);
  }

  /** One packet more delivered. */
  lemma DoneOne(done: seq<Delivery>, p: Pkt, c: nat, fgs: seq<Fg>, h: nat, now: seq<Delivery>)
    requires now == done + Deliver([p], c, fgs)
    ensures OnlyDone(now, h) == OnlyDone(done, h) + if p.fg == h then [p] else []
  {
    OnlyDoneAppend(done, Deliver([p], c, fgs), h, now);
    OnlyDelivered([p], c, fgs, h);
    OnlyOne(p, h);
  }

  lemma ProcessView(s: Sys, c: nat, h: nat)
    requires Control(s) && Placed(s) && c < |s.cpus| && h < |s.fgs| && ViewOk(ViewOf(s, h), |s.log|)
    ensures ViewOk(ViewOf(Process(s, c), h), |s.log|)
  {
    if s.cpus[c].rx != [] {
      assert PlacedAt(s, c);
      assert InRx(s, c, s.cpus[c].rx[0]);
      ProcessViewIs(s, c, h);
      if s.cpus[c].rx[0].fg == h {
        ViewShift(ViewOf(s, h), |s.log|, ViewOf(Process(s, c), h));
      }
    }
  }

  // ---------------------------------------------------------------------------------------------
  // Passing a migration on
  // ---------------------------------------------------------------------------------------------

  lemma PassOnControl(s: Sys, c: nat)
    requires Control(s) && c < |s.cpus| && s.cpus[c].timer
    ensures TimerOk(s, c) && Control(PassOn(s, c))
  {
    assert CpuOk(s, c);
    var t, r := s.cpus[c].info.target, PassOn(s, c);
    FinishersFirst(Finish(c), s.cpus[t].runs);
    forall g | 0 <= g < |r.fgs|
      ensures FgOk(r, g)
    {
      assert FgOk(s, g);
    }
    forall d | 0 <= d < |r.cpus|
      ensures CpuOk(r, d) && RunsOk(r, d)
    {
      assert CpuOk(s, d) && RunsOk(s, d);
      if s.cpus[d].info.prev == d {
        OneMigration(s, d, s.cpus[d].info.target);
      }
    }
  }

  lemma UnlistEarly(s: Sys, c: nat, i: nat)
    requires Control(s) && c < |s.cpus| && i < |s.cpus[c].runs| && s.cpus[c].runs[i].Early?
    ensures Control(Unlist(s, c, i))
  {
    var r := Unlist(s, c, i);
    assert RunsOk(s, c);
    FinishersRemoved(s.cpus[c].runs, i);
    forall d | 0 <= d < |s.cpus|
      ensures Alike(s.cpus[d], r.cpus[d]) && QuietAt(r, d)
    {
      assert CpuOk(s, d);
    }
    ControlFramed(s, r);
  }

  // ---------------------------------------------------------------------------------------------
  // The end of a migration
  // ---------------------------------------------------------------------------------------------

  ghost predicate FinishOk(s: Sys, c: nat, i: nat, q: nat) {
    c < |s.cpus| && i < |s.cpus[c].runs| && s.cpus[c].runs[i] == Finish(q)
  }

  /** A finish that waits on CPU c is that of the CPU its groups come from. */
  lemma FinishIsActive(s: Sys, c: nat, i: nat, q: nat)
    requires Control(s) && FinishOk(s, c, i, q)
    ensures q < |s.cpus| && q != c && s.cpus[q].info == s.cpus[c].info == Info(q, c, s.cpus[q].info.groups)
    ensures !s.cpus[q].timer && !s.cpus[c].timer && Finishers(s.cpus[q].runs) == []
    ensures Finishers(Unlist(s, c, i).cpus[c].runs) == []
    ensures forall g | 0 <= g < |s.fgs| ::
              g in s.cpus[q].info.groups <==> s.fgs[g].moving && s.fgs[g].target == c
  {
    assert CpuOk(s, c) && RunsOk(s, c);
    FinishersRemoved(s.cpus[c].runs, i);
    assert CpuOk(s, q) && RunsOk(s, q);
    forall g | 0 <= g < |s.fgs|
      ensures g in s.cpus[q].info.groups <==> s.fgs[g].moving && s.fgs[g].target == c
    {
      assert FgOk(s, g);
      if s.fgs[g].moving {
        OneMigration(s, s.fgs[g].prev, s.fgs[g].target);
      }
    }
  }

  lemma FinishControl(s: Sys, c: nat, i: nat, q: nat)
    requires Control(s) && FinishOk(s, c, i, q)
    ensures q < |s.cpus| && Control(RunFinish(s, c, i, q))
  {
    FinishIsActive(s, c, i, q);
    var r := RunFinish(s, c, i, q);
    forall g | 0 <= g < |r.fgs|
      ensures FgOk(r, g)
    {
      assert FgOk(s, g);
      if s.fgs[g].moving {
        OneMigration(s, s.fgs[g].prev, s.fgs[g].target);
      }
    }
    forall d | 0 <= d < |r.cpus|
      ensures CpuOk(r, d) && RunsOk(r, d)
    {
      FinishCpu(s, c, i, q, d);
    }
  }

  lemma FinishCpu(s: Sys, c: nat, i: nat, q: nat, d: nat)
    requires Control(s) && FinishOk(s, c, i, q) && q < |s.cpus| && d < |s.cpus|
    ensures CpuOk(RunFinish(s, c, i, q), d) && RunsOk(RunFinish(s, c, i, q), d)
  {
    FinishIsActive(s, c, i, q);
    var r := RunFinish(s, c, i, q);
    assert CpuOk(s, d) && RunsOk(s, d);
    if d != c && d != q && s.cpus[d].info.prev == d {
      OneMigration(s, d, s.cpus[d].info.target);
      assert GroupsOk(r, d, r.cpus[d].info.groups) by {
        forall g | g in r.cpus[d].info.groups
          ensures g < |r.fgs| && r.fgs[g].moving && r.fgs[g].prev == d
        {
          assert s.fgs[g].moving && s.fgs[g].prev == d;
          assert FgOk(s, g);
        }
      }
    }
  }

  lemma FinishPlaced(s: Sys, c: nat, i: nat, q: nat)
    requires Control(s) && Placed(s) && FinishOk(s, c, i, q) && q < |s.cpus|
    ensures Placed(RunFinish(s, c, i, q))
  {
    FinishIsActive(s, c, i, q);
    var r := RunFinish(s, c, i, q);
    forall d | 0 <= d < |r.cpus|
      ensures PlacedAt(r, d)
    {
      assert PlacedAt(s, d);
    }
  }

  lemma FinishDone(s: Sys, c: nat, i: nat, q: nat, h: nat)
    requires c < |s.cpus| && i < |s.cpus[c].runs| && q < |s.cpus|
    ensures OnlyDone(RunFinish(s, c, i, q).done, h) ==
              OnlyDone(s.done, h) + Only(s.cpus[c].remote, h) + Only(s.cpus[c].local, h)
  {
    var r, fgs := RunFinish(s, c, i, q), Arrived(s.fgs, s.cpus[q].info.groups);
    var a, b := Deliver(s.cpus[c].remote, c, fgs), Deliver(s.cpus[c].local, c, fgs);
    OnlyDoneAppend(s.done, a, h, s.done + a);
    OnlyDoneAppend(s.done + a, b, h, r.done);
    OnlyDelivered(s.cpus[c].remote, c, fgs, h);
    OnlyDelivered(s.cpus[c].local, c, fgs, h);
  }

  lemma FinishMoved(s: Sys, c: nat, i: nat, q: nat, h: nat)
    requires Control(s) && Placed(s) && FinishOk(s, c, i, q) && q < |s.cpus| && h < |s.fgs|
    requires h in s.cpus[q].info.groups
    ensures ViewOf(RunFinish(s, c, i, q), h) == View(Line(ViewOf(s, h)), [], [], ViewOf(s, h).all, s.eras[h] + 1)
  {
    FinishIsActive(s, c, i, q);
    assert PlacedAt(s, c);
    OnlyNone(s.cpus[c].rx, h);
    FinishArrived(s, c, i, q, h);
  }

  lemma FinishArrived(s: Sys, c: nat, i: nat, q: nat, h: nat)
    requires c < |s.cpus| && i < |s.cpus[c].runs| && q < |s.cpus| && h < |s.fgs| == |s.eras|
    requires h in s.cpus[q].info.groups && s.fgs[h].moving && s.fgs[h].target == c && Only(s.cpus[c].rx, h) == []
    ensures ViewOf(RunFinish(s, c, i, q), h) == View(Line(ViewOf(s, h)), [], [], ViewOf(s, h).all, s.eras[h] + 1)
  {
    FinishDone(s, c, i, q, h);
  }

  lemma FinishOther(s: Sys, c: nat, i: nat, q: nat, h: nat)
    requires Control(s) && Placed(s) && FinishOk(s, c, i, q) && q < |s.cpus| && h < |s.fgs|
    requires h !in s.cpus[q].info.groups
    ensures ViewOf(RunFinish(s, c, i, q), h) == ViewOf(s, h)
  {
    FinishIsActive(s, c, i, q);
    FinishDone(s, c, i, q, h);
    assert PlacedAt(s, c);
    OnlyNone(s.cpus[c].remote, h);
    OnlyNone(s.cpus[c].local, h);
    FinishWaiting(s, c, i, q, h);
  }

  lemma FinishWaiting(s: Sys, c: nat, i: nat, q: nat, h: nat)
    requires c < |s.cpus| && i < |s.cpus[c].runs| && q < |s.cpus| && h < |s.fgs|
    requires h !in s.cpus[q].info.groups && (s.fgs[h].moving ==> s.fgs[h].target != c)
    ensures Front(RunFinish(s, c, i, q), h) == Front(s, h) && Back(RunFinish(s, c, i, q), h) == Back(s, h)
  {
  }

  lemma FinishView(s: Sys, c: nat, i: nat, q: nat, h: nat)
    requires Control(s) && Placed(s) && FinishOk(s, c, i, q) && q < |s.cpus| && h < |s.fgs|
    requires ViewOk(ViewOf(s, h), |s.log|)
    ensures ViewOk(ViewOf(RunFinish(s, c, i, q), h), |s.log|)
  {
    if h in s.cpus[q].info.groups {
      FinishMoved(s, c, i, q, h);
      ViewFinish(ViewOf(s, h), |s.log|, ViewOf(RunFinish(s, c, i, q), h));
    } else {
      FinishOther(s, c, i, q, h);
    }
  }

  // ---------------------------------------------------------------------------------------------
  // The start of a migration
  // ---------------------------------------------------------------------------------------------

  lemma AssignOnePlaced(s: Sys, c: nat, t: nat, g: nat)
    requires Placed(s) && AssignableOne(s, c, t, g)
    ensures Placed(AssignOne(s, c, t, g))
  {
    var r := AssignOne(s, c, t, g);
    forall d | 0 <= d < |r.cpus|
      ensures PlacedAt(r, d)
    {
      assert PlacedAt(s, d);
      if Moves(s.fgs[g], t) {
        MovedPlaced(s, c, t, g, d);
      }
    }
  }

  lemma MovedPlaced(s: Sys, c: nat, t: nat, g: nat, d: nat)
    requires AssignableOne(s, c, t, g) && Moves(s.fgs[g], t) && d < |s.cpus| && PlacedAt(s, d) && PlacedAt(s, c)
    ensures PlacedAt(AssignOne(s, c, t, g), d)
  {
    var r, q := AssignOne(s, c, t, g), s.cpus[c].rx;
    forall i | 0 <= i < |r.cpus[d].rx|
      ensures InRx(r, d, r.cpus[d].rx[i])
    {
      if d == c {
        WithoutAll(q, g, i);
      }
      assert InRx(s, d, r.cpus[d].rx[i]);
    }
    forall i | 0 <= i < |r.cpus[d].remote|
      ensures InTransit(r, d, r.cpus[d].remote[i])
    {
      if i < |s.cpus[d].remote| {
        assert InTransit(s, d, s.cpus[d].remote[i]);
      } else {
        OnlyAll(q, g, i - |s.cpus[d].remote|);
      }
    }
  }

  /** A group that is not moving has no packets in transit. */
  lemma NoneInTransit(s: Sys, t: nat, g: nat)
    requires t < |s.cpus| && g < |s.fgs| && PlacedAt(s, t) && !s.fgs[g].moving
    ensures Only(s.cpus[t].remote, g) == [] && Only(s.cpus[t].local, g) == []
    ensures s.fgs[g].cur != t ==> Only(s.cpus[t].rx, g) == []
  {
    OnlyNone(s.cpus[t].remote, g);
    OnlyNone(s.cpus[t].local, g);
    if s.fgs[g].cur != t {
      OnlyNone(s.cpus[t].rx, g);
    }
  }

  lemma AssignOneView(s: Sys, c: nat, t: nat, g: nat, h: nat)
    requires Placed(s) && AssignableOne(s, c, t, g) && h < |s.fgs| == |s.eras|
    ensures ViewOf(AssignOne(s, c, t, g), h) == ViewOf(s, h)
  {
    assert PlacedAt(s, t) && PlacedAt(s, c);
    NoneInTransit(s, t, g);
    if Moves(s.fgs[g], t) {
      MoveQueues(s, c, t, g, h);
      var r := AssignOne(s, c, t, g);
      assert forall d | 0 <= d < |s.cpus| :: SameButMoved(s.cpus[d], r.cpus[d], d == c, d == t);
      MoveView(s, r, c, t, g, h);
    }
  }

  lemma MoveQueues(s: Sys, c: nat, t: nat, g: nat, h: nat)
    requires AssignableOne(s, c, t, g) && Moves(s.fgs[g], t) && Only(s.cpus[t].remote, g) == []
    ensures var r := AssignOne(s, c, t, g);
      && Only(r.cpus[t].remote, h) == (if g == h then Only(s.cpus[c].rx, g) else Only(s.cpus[t].remote, h))
      && (g != h ==> Only(r.cpus[c].rx, h) == Only(s.cpus[c].rx, h))
  {
    var r, q := AssignOne(s, c, t, g), s.cpus[c].rx;
    OnlyOfWithout(q, g, h);
    OnlyOfOnly(q, g, h);
    OnlyAppend(s.cpus[t].remote, Only(q, g), h, r.cpus[t].remote);
  }

  lemma MoveView(s: Sys, r: Sys, c: nat, t: nat, g: nat, h: nat)
    requires c < |s.cpus| && t < |s.cpus| && c != t && g < |s.fgs| && h < |s.fgs|
    requires |r.cpus| == |s.cpus| && !s.fgs[g].moving && s.fgs[g].cur == c && r.fgs == s.fgs[g := Fg(-1, c, t, true)]
    requires forall d | 0 <= d < |s.cpus| :: SameButMoved(s.cpus[d], r.cpus[d], d == c, d == t)
    requires Only(s.cpus[t].local, g) == []
    requires Only(r.cpus[t].remote, h) == (if g == h then Only(s.cpus[c].rx, g) else Only(s.cpus[t].remote, h))
    requires g != h ==> Only(r.cpus[c].rx, h) == Only(s.cpus[c].rx, h)
    ensures Front(r, h) == Front(s, h) && Back(r, h) == Back(s, h)
  {
    var f := s.fgs[h];
    if f.moving && 0 <= f.target < |s.cpus| {
      assert SameButMoved(s.cpus[f.target], r.cpus[f.target], f.target == c, f.target == t);
    } else if !f.moving && 0 <= f.cur < |s.cpus| {
      assert SameButMoved(s.cpus[f.cur], r.cpus[f.cur], f.cur == c, f.cur == t);
      assert SameButMoved(s.cpus[t], r.cpus[t], t == c, true);
    }
  }

  ghost predicate SameButMoved(u: Cpu, v: Cpu, from: bool, to: bool) {
    u.local == v.local && (!from ==> u.rx == v.rx) && (!to ==> u.remote == v.remote)
  }

  lemma {:induction false} AssignAllRest(s: Sys, c: nat, t: nat, gs: seq<nat>, h: nat)
    requires Placed(s) && AssignableAll(s, c, t, gs) && h < |s.fgs| == |s.eras|
    ensures var r := AssignAll(s, c, t, gs);
      && Placed(r) && |r.fgs| == |s.fgs| && r.eras == s.eras && r.log == s.log && r.done == s.done
      && ViewOf(r, h) == ViewOf(s, h)
    decreases |gs|
  {
    if gs != [] {
      AssignOnePlaced(s, c, t, gs[0]);
      AssignOneView(s, c, t, gs[0], h);
      AssignAllRest(AssignOne(s, c, t, gs[0]), c, t, gs[1..], h);
    }
  }

  /** What becomes of a group that is assigned. */
  function After(f: Fg, t: nat): Fg {
    if f.cur == t then f else if f.cur == -1 then f.(cur := t) else Fg(-1, f.cur, t, true)
  }

  lemma {:induction false} AssignAllGroups(s: Sys, c: nat, t: nat, gs: seq<nat>, g: nat)
    requires AssignableAll(s, c, t, gs) && g < |s.fgs|
    ensures |AssignAll(s, c, t, gs).fgs| == |s.fgs|
    ensures AssignAll(s, c, t, gs).fgs[g] == if g in gs then After(s.fgs[g], t) else s.fgs[g]
    ensures g in gs ==> !s.fgs[g].moving && (s.fgs[g].cur == t || s.fgs[g].cur == -1 || s.fgs[g].cur == c)
    decreases |gs|
  {
    if gs != [] {
      AssignAllGroups(AssignOne(s, c, t, gs[0]), c, t, gs[1..], g);
    }
  }

  lemma {:induction false} AssignAllInRange(s: Sys, c: nat, t: nat, gs: seq<nat>, i: nat)
    requires AssignableAll(s, c, t, gs) && i < |gs|
    ensures gs[i] < |s.fgs|
    decreases |gs|
  {
    if i > 0 {
      AssignAllInRange(AssignOne(s, c, t, gs[0]), c, t, gs[1..], i - 1);
    }
  }

  /** What does not change on CPU d. */
  ghost predicate Kept(u: Cpu, v: Cpu, same: bool) {
    u.info == v.info && u.timer == v.timer && u.runs == v.runs && u.local == v.local && (same ==> u.remote == v.remote)
  }

  lemma {:induction false} AssignAllCpus(s: Sys, c: nat, t: nat, gs: seq<nat>, d: nat)
    requires AssignableAll(s, c, t, gs) && d < |s.cpus|
    ensures |AssignAll(s, c, t, gs).cpus| == |s.cpus|
    ensures Kept(s.cpus[d], AssignAll(s, c, t, gs).cpus[d], d != t || c == t)
    decreases |gs|
  {
    if gs != [] {
      AssignAllCpus(AssignOne(s, c, t, gs[0]), c, t, gs[1..], d);
    }
  }

  /** A CPU without a part in any migration. */
  lemma IdleCpu(s: Sys, c: nat, d: nat)
    requires Control(s) && c < |s.cpus| && d < |s.cpus| && s.cpus[c].info.prev == -1
    ensures Finishers(s.cpus[c].runs) == [] && !s.cpus[c].timer
    ensures s.cpus[d].info.prev != c && (s.cpus[d].info.prev == d ==> s.cpus[d].info.target != c)
  {
    assert CpuOk(s, c) && RunsOk(s, c) && CpuOk(s, d);
    if |Finishers(s.cpus[c].runs)| == 1 {
      assert Finishers(s.cpus[c].runs)[0] >= 0;
    }
  }

  lemma AssignFg(s: Sys, c: nat, t: nat, gs: seq<nat>, g: nat)
    requires Control(s) && Assignable(s, c, t, gs) && g < |s.fgs|
    ensures |Assign(s, c, t, gs).fgs| == |s.fgs| && |Assign(s, c, t, gs).cpus| == |s.cpus|
    ensures FgOk(Assign(s, c, t, gs), g)
  {
    assert FgOk(s, g);
    AssignAllGroups(s, c, t, gs, g);
    var moved := Moved(s.fgs, t, gs);
    assert g in moved <==> g in gs && Moves(s.fgs[g], t);
    if s.fgs[g].moving {
      var q := s.fgs[g].prev;
      AssignAllCpus(s, c, t, gs, q);
    }
  }

  lemma AssignGroups(s: Sys, c: nat, t: nat, gs: seq<nat>, d: nat, groups: set<nat>)
    requires Control(s) && Assignable(s, c, t, gs)
    requires if d == c then groups == Moved(s.fgs, t, gs) else GroupsOk(s, d, groups)
    ensures GroupsOk(Assign(s, c, t, gs), d, groups)
  {
    var r := Assign(s, c, t, gs);
    forall g | g in groups
      ensures g < |r.fgs| && r.fgs[g].moving && r.fgs[g].prev == d
    {
      if d == c {
        AssignAllGroups(s, c, t, gs, g);
      } else {
        assert g < |s.fgs| && s.fgs[g].moving;
        AssignAllGroups(s, c, t, gs, g);
      }
    }
  }

  lemma AssignCpu(s: Sys, c: nat, t: nat, gs: seq<nat>, d: nat)
    requires Control(s) && Assignable(s, c, t, gs) && d < |s.cpus|
    ensures |Assign(s, c, t, gs).cpus| == |s.cpus|
    ensures CpuOk(Assign(s, c, t, gs), d) && RunsOk(Assign(s, c, t, gs), d)
  {
    AssignAllCpus(s, c, t, gs, d);
    if d == c || d == t {
      AssignParties(s, c, t, gs, d);
    } else {
      AssignOthers(s, c, t, gs, d);
    }
  }

  /** The two CPUs of the new migration. */
  lemma AssignParties(s: Sys, c: nat, t: nat, gs: seq<nat>, d: nat)
    requires Control(s) && Assignable(s, c, t, gs) && (d == c || d == t)
    ensures |Assign(s, c, t, gs).cpus| == |s.cpus|
    ensures CpuOk(Assign(s, c, t, gs), d) && RunsOk(Assign(s, c, t, gs), d)
  {
    assert CpuOk(s, c) && CpuOk(s, t);
    IdleCpu(s, c, d);
    IdleCpu(s, t, d);
    AssignAllCpus(s, c, t, gs, c);
    AssignAllCpus(s, c, t, gs, t);
    var moved := Moved(s.fgs, t, gs);
    if moved != {} {
      var g :| g in moved;
      AssignAllGroups(s, c, t, gs, g);
      AssignGroups(s, c, t, gs, c, moved);
    } else {
      NothingMoved(s, c, t, gs);
    }
  }

  /** Any other CPU. */
  lemma AssignOthers(s: Sys, c: nat, t: nat, gs: seq<nat>, d: nat)
    requires Control(s) && Assignable(s, c, t, gs) && d < |s.cpus| && d != c && d != t
    ensures |Assign(s, c, t, gs).cpus| == |s.cpus|
    ensures CpuOk(Assign(s, c, t, gs), d) && RunsOk(Assign(s, c, t, gs), d)
  {
    assert CpuOk(s, d) && RunsOk(s, d);
    IdleCpu(s, c, d);
    IdleCpu(s, t, d);
    AssignElsewhere(s, c, t, gs, d);
    if s.cpus[d].info.prev == d {
      AssignElsewhere(s, c, t, gs, s.cpus[d].info.target);
      AssignGroups(s, c, t, gs, d, s.cpus[d].info.groups);
    } else if s.cpus[d].info.prev != -1 {
      AssignElsewhere(s, c, t, gs, s.cpus[d].info.prev);
    }
  }

  lemma AssignElsewhere(s: Sys, c: nat, t: nat, gs: seq<nat>, d: nat)
    requires Assignable(s, c, t, gs) && d < |s.cpus| && d != c && d != t
    ensures |Assign(s, c, t, gs).cpus| == |s.cpus| && Kept(s.cpus[d], Assign(s, c, t, gs).cpus[d], true)
  {
    AssignAllCpus(s, c, t, gs, d);
  }

  /** Groups that do not move leave the queues alone. */
  lemma {:induction false} NothingMoved(s: Sys, c: nat, t: nat, gs: seq<nat>)
    requires AssignableAll(s, c, t, gs) && Moved(s.fgs, t, gs) == {}
    ensures AssignAll(s, c, t, gs).cpus == s.cpus
    decreases |gs|
  {
    if gs != [] {
      assert gs[0] !in Moved(s.fgs, t, gs);
      var r := AssignOne(s, c, t, gs[0]);
      assert Moved(r.fgs, t, gs[1..]) <= Moved(s.fgs, t, gs);
      NothingMoved(r, c, t, gs[1..]);
    }
  }

  lemma AssignControl(s: Sys, c: nat, t: nat, gs: seq<nat>)
    requires Control(s) && Assignable(s, c, t, gs)
    ensures Control(Assign(s, c, t, gs))
  {
    var r := Assign(s, c, t, gs);
    assert |r.fgs| == |s.fgs| && r.eras == s.eras by {
      AssignAllEras(s, c, t, gs);
    }
    forall g | 0 <= g < |r.fgs|
      ensures FgOk(r, g)
    {
      AssignFg(s, c, t, gs, g);
    }
    assert |r.cpus| == |s.cpus|;
    forall d | 0 <= d < |r.cpus|
      ensures CpuOk(r, d) && RunsOk(r, d)
    {
      AssignCpu(s, c, t, gs, d);
    }
  }

  lemma {:induction false} AssignAllEras(s: Sys, c: nat, t: nat, gs: seq<nat>)
    requires AssignableAll(s, c, t, gs)
    ensures AssignAll(s, c, t, gs).eras == s.eras && |AssignAll(s, c, t, gs).fgs| == |s.fgs|
    ensures AssignAll(s, c, t, gs).log == s.log && AssignAll(s, c, t, gs).done == s.done
    decreases |gs|
  {
    if gs != [] {
      AssignAllEras(AssignOne(s, c, t, gs[0]), c, t, gs[1..]);
    }
  }

  lemma {:induction false} AssignAllPlaced(s: Sys, c: nat, t: nat, gs: seq<nat>)
    requires Placed(s) && AssignableAll(s, c, t, gs)
    ensures Placed(AssignAll(s, c, t, gs))
    decreases |gs|
  {
    if gs != [] {
      AssignOnePlaced(s, c, t, gs[0]);
      AssignAllPlaced(AssignOne(s, c, t, gs[0]), c, t, gs[1..]);
    }
  }

  ghost predicate SameQueues(u: Cpu, v: Cpu) {
    u.rx == v.rx && u.remote == v.remote && u.local == v.local
  }

  /** Steps that leave groups and queues alone. */
  lemma QueuesFramed(s: Sys, r: Sys)
    requires r.fgs == s.fgs && r.eras == s.eras && r.log == s.log && r.done == s.done && |r.cpus| == |s.cpus|
    requires forall d | 0 <= d < |s.cpus| :: SameQueues(s.cpus[d], r.cpus[d])
    requires Placed(s) && |s.fgs| == |s.eras|
    ensures Placed(r) && forall h | 0 <= h < |s.fgs| :: ViewOf(r, h) == ViewOf(s, h)
  {
    forall d | 0 <= d < |r.cpus|
      ensures PlacedAt(r, d)
    {
      assert PlacedAt(s, d) && SameQueues(s.cpus[d], r.cpus[d]);
    }
    forall h | 0 <= h < |s.fgs|
      ensures ViewOf(r, h) == ViewOf(s, h)
    {
      var f := s.fgs[h];
      if f.moving && 0 <= f.target < |s.cpus| {
        assert SameQueues(s.cpus[f.target], r.cpus[f.target]);
      } else if !f.moving && 0 <= f.cur < |s.cpus| {
        assert SameQueues(s.cpus[f.cur], r.cpus[f.cur]);
      }
    }
  }

  // ---------------------------------------------------------------------------------------------
  // Runs
  // ---------------------------------------------------------------------------------------------

  datatype Event =
    | RecvEvent(cpu: nat, fg: nat)
    | ProcessEvent(cpu: nat)
    | AssignEvent(cpu: nat, target: nat, groups: seq<nat>)
    | TimerEvent(cpu: nat)
    | RunEvent(cpu: nat, runner: nat)

  /** Any packet may arrive anywhere at any time; a run list may be worked off in any order. */
  ghost predicate Enabled(s: Sys, e: Event) {
    e.cpu < |s.cpus| &&
    match e
    case RecvEvent(_, g) => g < |s.fgs|
    case ProcessEvent(_) => true
    case AssignEvent(c, t, gs) => Assignable(s, c, t, gs)
    case TimerEvent(c) => s.cpus[c].timer
    case RunEvent(c, i) => i < |s.cpus[c].runs|
  }

  /** Everything that holds between steps. */
  ghost predicate Inv(s: Sys) {
    && Control(s) && Placed(s)
    && (forall g | 0 <= g < |s.fgs| :: ViewOk(ViewOf(s, g), |s.log|))
    && (forall i | 0 <= i < |s.log| :: s.log[i].id == i && s.log[i].fg < |s.fgs|)
    && (forall i | 0 <= i < |s.done| :: s.done[i].owner == s.done[i].cpu && s.done[i].pkt.fg < |s.fgs|)
  }

  ghost function Apply(s: Sys, e: Event): Sys
    requires Inv(s) && Enabled(s, e)
  {
    match e
    case RecvEvent(c, g) => RecvControl(s, c, g); Recv(s, c, g)
    case ProcessEvent(c) => Process(s, c)
    case AssignEvent(c, t, gs) => Assign(s, c, t, gs)
    case TimerEvent(c) => PassOnControl(s, c); TimerFires(s, c)
    case RunEvent(c, i) =>
      if s.cpus[c].runs[i].Early? then EarlyOk(s, c); RunEarly(s, c, i)
      else FinishIsActive(s, c, i, s.cpus[c].runs[i].from); RunFinish(s, c, i, s.cpus[c].runs[i].from)
  }

  lemma EarlyOk(s: Sys, c: nat)
    requires Control(s) && c < |s.cpus|
    ensures s.cpus[c].timer ==> 0 <= s.cpus[c].info.target < |s.cpus|
  {
    assert CpuOk(s, c);
  }

  // ---------------------------------------------------------------------------------------------
  // Every step keeps the invariant
  // ---------------------------------------------------------------------------------------------

  lemma RecvKeeps(s: Sys, c: nat, g: nat)
    requires Inv(s) && c < |s.cpus| && g < |s.fgs|
    ensures RecvOk(s, c, g) && Inv(Recv(s, c, g))
  {
    RecvControl(s, c, g);
    RecvPlaced(s, c, g);
    var r := Recv(s, c, g);
    forall h | 0 <= h < |r.fgs|
      ensures ViewOk(ViewOf(r, h), |r.log|)
    {
      RecvView(s, c, g, h);
    }
  }

  /** Deliveries on the CPU that owns the groups. */
  lemma {:induction false} DeliverOwned(q: seq<Pkt>, c: nat, fgs: seq<Fg>, i: nat)
    requires i < |q| && q[i].fg < |fgs| && Owner(fgs[q[i].fg]) == c
    ensures Deliver(q, c, fgs)[i] == Delivery(q[i], c, c)
    decreases i
  {
    if i > 0 {
      DeliverOwned(q[1..], c, fgs, i - 1);
    }
  }

  lemma ProcessKeeps(s: Sys, c: nat)
    requires Inv(s) && c < |s.cpus|
    ensures Inv(Process(s, c))
  {
    ProcessControl(s, c);
    ProcessPlaced(s, c);
    var r := Process(s, c);
    forall h | 0 <= h < |r.fgs|
      ensures ViewOk(ViewOf(r, h), |r.log|)
    {
      ProcessView(s, c, h);
    }
    if s.cpus[c].rx != [] {
      assert PlacedAt(s, c);
      assert InRx(s, c, s.cpus[c].rx[0]);
      DeliverOwned([s.cpus[c].rx[0]], c, s.fgs, 0);
    }
  }

  lemma PassOnKeeps(s: Sys, c: nat)
    requires Inv(s) && c < |s.cpus| && s.cpus[c].timer
    ensures TimerOk(s, c) && Inv(PassOn(s, c))
  {
    PassOnControl(s, c);
    QueuesFramed(s, PassOn(s, c));
  }

  lemma EarlyKeeps(s: Sys, c: nat, i: nat)
    requires Inv(s) && c < |s.cpus| && i < |s.cpus[c].runs| && s.cpus[c].runs[i].Early?
    ensures s.cpus[c].timer ==> 0 <= s.cpus[c].info.target < |s.cpus|
    ensures Inv(RunEarly(s, c, i))
  {
    EarlyOk(s, c);
    var s1 := Unlist(s, c, i);
    UnlistEarly(s, c, i);
    QueuesFramed(s, s1);
    if s.cpus[c].timer {
      PassOnKeeps(s1, c);
    }
  }

  lemma FinishOwned(s: Sys, c: nat, i: nat, q: nat, p: Pkt)
    requires Control(s) && FinishOk(s, c, i, q) && InTransit(s, c, p)
    ensures q < |s.cpus| && Owner(Arrived(s.fgs, s.cpus[q].info.groups)[p.fg]) == c
  {
    FinishIsActive(s, c, i, q);
  }

  lemma FinishDeliveries(s: Sys, c: nat, i: nat, q: nat, j: nat)
    requires Control(s) && Placed(s) && FinishOk(s, c, i, q) && q < |s.cpus|
    requires |s.done| <= j < |RunFinish(s, c, i, q).done|
    ensures var d := RunFinish(s, c, i, q).done[j]; d.owner == d.cpu && d.pkt.fg < |s.fgs|
  {
    assert PlacedAt(s, c);
    var fgs, a, b := Arrived(s.fgs, s.cpus[q].info.groups), s.cpus[c].remote, s.cpus[c].local;
    var k := j - |s.done|;
    if k < |a| {
      assert InTransit(s, c, a[k]);
      FinishOwned(s, c, i, q, a[k]);
      DeliverOwned(a, c, fgs, k);
    } else {
      assert InTransit(s, c, b[k - |a|]);
      FinishOwned(s, c, i, q, b[k - |a|]);
      DeliverOwned(b, c, fgs, k - |a|);
    }
  }

  lemma FinishKeeps(s: Sys, c: nat, i: nat, q: nat)
    requires Inv(s) && FinishOk(s, c, i, q)
    ensures q < |s.cpus| && Inv(RunFinish(s, c, i, q))
  {
    FinishControl(s, c, i, q);
    FinishPlaced(s, c, i, q);
    var r := RunFinish(s, c, i, q);
    forall h | 0 <= h < |r.fgs|
      ensures ViewOk(ViewOf(r, h), |r.log|)
    {
      FinishView(s, c, i, q, h);
    }
    forall j | 0 <= j < |r.done|
      ensures r.done[j].owner == r.done[j].cpu && r.done[j].pkt.fg < |r.fgs|
    {
      if j < |s.done| {
        assert r.done[j] == s.done[j];
      } else {
        FinishDeliveries(s, c, i, q, j);
      }
    }
  }

  lemma AssignKeeps(s: Sys, c: nat, t: nat, gs: seq<nat>)
    requires Inv(s) && Assignable(s, c, t, gs)
    ensures Inv(Assign(s, c, t, gs))
  {
    AssignControl(s, c, t, gs);
    AssignAllEras(s, c, t, gs);
    AssignAllPlaced(s, c, t, gs);
    var s1, r := AssignAll(s, c, t, gs), Assign(s, c, t, gs);
    QueuesFramed(s1, r);
    forall h | 0 <= h < |r.fgs|
      ensures ViewOk(ViewOf(r, h), |r.log|)
    {
      AssignAllRest(s, c, t, gs, h);
    }
  }

  lemma ApplyKeeps(s: Sys, e: Event)
    requires Inv(s) && Enabled(s, e)
    ensures Inv(Apply(s, e))
  {
    match e
    case RecvEvent(c, g) => RecvKeeps(s, c, g);
    case ProcessEvent(c) => ProcessKeeps(s, c);
    case AssignEvent(c, t, gs) => AssignKeeps(s, c, t, gs);
    case TimerEvent(c) => PassOnKeeps(s, c);
    case RunEvent(c, i) =>
      if s.cpus[c].runs[i].Early? {
        EarlyKeeps(s, c, i);
      } else {
        FinishKeeps(s, c, i, s.cpus[c].runs[i].from);
      }
  }

  ghost predicate Legal(s: Sys, events: seq<Event>)
    requires Inv(s)
    decreases |events|
  {
    events != [] ==>
      Enabled(s, events[0]) && (ApplyKeeps(s, events[0]); Legal(Apply(s, events[0]), events[1..]))
  }

  ghost function Exec(s: Sys, events: seq<Event>): (r: Sys)
    requires Inv(s) && Legal(s, events)
    ensures Inv(r)
    decreases |events|
  {
    if events == [] then s else ApplyKeeps(s, events[0]); Exec(Apply(s, events[0]), events[1..])
  }

  /** init_migration_cpu and eth_fg_init: no group assigned, nothing under way. */
  function Boot(cpus: nat, fgs: nat): Sys {
    Sys(seq(fgs, _ => Fg(-1, 0, 0, false)), seq(cpus, _ => Cpu([], [], [], Info(-1, 0, {}), false, [])),
        seq(fgs, _ => 0), [], [])
  }

  lemma BootInv(cpus: nat, fgs: nat)
    ensures Inv(Boot(cpus, fgs))
  {
    var s := Boot(cpus, fgs);
    forall g | 0 <= g < |s.fgs|
      ensures ViewOk(ViewOf(s, g), |s.log|)
    {
      assert ViewOf(s, g) == View([], [], [], [], 0);
    }
  }

  ghost predicate LegalRun(cpus: nat, fgs: nat, events: seq<Event>) {
    BootInv(cpus, fgs);
    Legal(Boot(cpus, fgs), events)
  }

  /** The state after any sequence of steps. */
  ghost function Run(cpus: nat, fgs: nat, events: seq<Event>): (s: Sys)
    requires LegalRun(cpus, fgs, events)
    ensures Inv(s)
  {
    BootInv(cpus, fgs);
    Exec(Boot(cpus, fgs), events)
  }

  // ---------------------------------------------------------------------------------------------
  // The results
  // ---------------------------------------------------------------------------------------------

  /** CPU c is moving group g. */
  predicate MovingFrom(s: Sys, c: nat, g: nat) {
    c < |s.cpus| && s.cpus[c].info.prev == c && g in s.cpus[c].info.groups
  }

  /** In every run, the groups in transition are exactly the bits of the active migrations, each of a single
      one: that of its previous CPU, to its target. */
  lemma TransitionsExact(cpus: nat, fgs: nat, events: seq<Event>, g: nat, c: nat)
    requires LegalRun(cpus, fgs, events) && g < |Run(cpus, fgs, events).fgs|
    ensures var s := Run(cpus, fgs, events);
      && (MovingFrom(s, c, g) <==> s.fgs[g].moving && s.fgs[g].prev == c)
      && (s.fgs[g].moving ==>
            && 0 <= s.fgs[g].prev && MovingFrom(s, s.fgs[g].prev, g)
            && s.cpus[s.fgs[g].prev].info.target == s.fgs[g].target)
  {
    var s := Run(cpus, fgs, events);
    assert FgOk(s, g);
    if c < |s.cpus| {
      assert CpuOk(s, c);
    }
  }

  /** A migration under way is never forgotten: its timeout is pending or the target is to finish it. */
  lemma NeverStuck(cpus: nat, fgs: nat, events: seq<Event>, c: nat)
    requires LegalRun(cpus, fgs, events) && c < |Run(cpus, fgs, events).cpus|
    requires Run(cpus, fgs, events).cpus[c].info.prev == c
    ensures var s := Run(cpus, fgs, events); var t := s.cpus[c].info.target;
      0 <= t < |s.cpus| && t != c && (s.cpus[c].timer <==> Finishers(s.cpus[t].runs) != [c])
  {
    var s := Run(cpus, fgs, events);
    assert CpuOk(s, c);
    assert RunsOk(s, s.cpus[c].info.target);
  }

  /** Every packet is delivered by the CPU that owns its group at that moment. */
  lemma DeliveredByOwner(cpus: nat, fgs: nat, events: seq<Event>, i: nat)
    requires LegalRun(cpus, fgs, events) && i < |Run(cpus, fgs, events).done|
    ensures var s := Run(cpus, fgs, events); s.done[i].owner == s.done[i].cpu
  {
  }

  lemma {:induction false} OnlyDoneMember(d: seq<Delivery>, g: nat, j: nat)
    requires j < |d| && d[j].pkt.fg == g
    ensures d[j].pkt in OnlyDone(d, g)
    decreases j
  {
    if j > 0 {
      OnlyDoneMember(d[1..], g, j - 1);
    }
  }

  /** Two deliveries of a group, in the line of the group. */
  lemma OnlyDoneOrder(d: seq<Delivery>, g: nat, i: nat, j: nat)
    requires i < j < |d| && d[i].pkt.fg == g && d[j].pkt.fg == g && Ordered(OnlyDone(d, g))
    ensures Before(d[i].pkt, d[j].pkt)
  {
    var a, b := d[..i], d[i..];
    assert d == a + b;
    OnlyDoneAppend(a, b, g, d);
    assert b[0] == d[i] && b[1..][j - i - 1] == d[j];
    OnlyDoneMember(b[1..], g, j - i - 1);
    var tail := OnlyDone(b[1..], g);
    var k :| 0 <= k < |tail| && tail[k] == d[j].pkt;
    var all, n := OnlyDone(d, g), |OnlyDone(a, g)|;
    assert all[n] == d[i].pkt && all[n + 1 + k] == d[j].pkt;
  }

  lemma DoneOrdered(s: Sys, g: nat)
    requires Inv(s) && g < |s.fgs|
    ensures Ordered(OnlyDone(s.done, g))
  {
    var v := ViewOf(s, g);
    assert ViewOk(v, |s.log|);
    assert forall i | 0 <= i < |v.done| :: Line(v)[i] == v.done[i];
  }

  /** Within a group packets are delivered in the order of the phases they were accepted in, so those
      accepted by the previous CPU before those accepted by the target, and within a phase in the order
      they were accepted. */
  lemma DeliveredInOrder(cpus: nat, fgs: nat, events: seq<Event>, i: nat, j: nat)
    requires LegalRun(cpus, fgs, events) && i < j < |Run(cpus, fgs, events).done|
    requires Run(cpus, fgs, events).done[i].pkt.fg == Run(cpus, fgs, events).done[j].pkt.fg
    ensures var s := Run(cpus, fgs, events); Before(s.done[i].pkt, s.done[j].pkt)
  {
    var s := Run(cpus, fgs, events);
    DoneOrdered(s, s.done[i].pkt.fg);
    OnlyDoneOrder(s.done, s.done[i].pkt.fg, i, j);
  }

  /** No packet is delivered twice. */
  lemma DeliveredOnce(cpus: nat, fgs: nat, events: seq<Event>, i: nat, j: nat)
    requires LegalRun(cpus, fgs, events) && i < j < |Run(cpus, fgs, events).done|
    ensures var s := Run(cpus, fgs, events); s.done[i].pkt != s.done[j].pkt
  {
    var s := Run(cpus, fgs, events);
    if s.done[i].pkt.fg == s.done[j].pkt.fg {
      DeliveredInOrder(cpus, fgs, events, i, j);
    }
  }

  /** No accepted packet is lost or invented: of each group, those delivered and those waiting are together
      exactly those accepted. */
  lemma NothingLost(cpus: nat, fgs: nat, events: seq<Event>, g: nat)
    requires LegalRun(cpus, fgs, events) && g < |Run(cpus, fgs, events).fgs|
    ensures var s := Run(cpus, fgs, events);
      multiset(OnlyDone(s.done, g)) + multiset(Front(s, g)) + multiset(Back(s, g)) == multiset(Only(s.log, g))
  {
    var s := Run(cpus, fgs, events);
    assert ViewOk(ViewOf(s, g), |s.log|);
  }

  /** When a packet is accepted, and in which phase. */
  lemma AcceptedExactly(s: Sys, c: nat, g: nat)
    requires Inv(s) && c < |s.cpus| && g < |s.fgs|
    ensures RecvOk(s, c, g)
    ensures var f, r := s.fgs[g], Recv(s, c, g);
      && (r.log != s.log <==>
            (if f.moving then f.prev == c || f.target == c
             else f.cur == c && |s.cpus[c].rx| < ETH_RX_MAX_DEPTH))
      && (r.log != s.log ==>
            r.log == s.log + [Pkt(|s.log|, g, 2 * s.eras[g] + if f.moving && f.target == c then 1 else 0)])
      && (r.log == s.log ==> r == s)
  {
    RecvControl(s, c, g);
    assert FgOk(s, g);
  }

  // ---------------------------------------------------------------------------------------------
  // The program
  // ---------------------------------------------------------------------------------------------

  /** migrate_pkts_to_remote: the packets of the group leave the receive queue in order. */
  method MigratePkts(rx: seq<Pkt>, g: nat) returns (kept: seq<Pkt>, moved: seq<Pkt>)
    ensures kept == Without(rx, g) && moved == Only(rx, g)
  {
    kept, moved := [], [];
    for i := 0 to |rx|
      invariant kept + Without(rx[i..], g) == Without(rx, g)
      invariant moved + Only(rx[i..], g) == Only(rx, g)
    {
      assert rx[i..][1..] == rx[i + 1..];
      if rx[i].fg == g {
        moved := moved + [rx[i]];
      } else {
        kept := kept + [rx[i]];
      }
    }
    assert rx[|rx|..] == [];
  }

  lemma AssignStep(s: Sys, c: nat, t: nat, gs: seq<nat>, i: nat)
    requires i < |gs| && AssignableAll(s, c, t, gs[i..])
    ensures AssignableOne(s, c, t, gs[i]) && AssignableAll(AssignOne(s, c, t, gs[i]), c, t, gs[i + 1..])
    ensures AssignAll(s, c, t, gs[i..]) == AssignAll(AssignOne(s, c, t, gs[i]), c, t, gs[i + 1..])
  {
    assert gs[i..][0] == gs[i] && gs[i..][1..] == gs[i + 1..];
  }

  lemma MovedStep(fgs: seq<Fg>, t: nat, gs: seq<nat>, i: nat)
    requires i < |gs| && gs[i] < |fgs|
    ensures Moved(fgs, t, gs[..i + 1]) == Moved(fgs, t, gs[..i]) + if Moves(fgs[gs[i]], t) then {gs[i]} else {}
  {
    assert gs[..i + 1] == gs[..i] + [gs[i]];
  }

  /** The flow groups and the per-CPU variables; the last three fields only keep the record. */
  class Dataplane {
    var fgs: seq<Fg>
    var cpus: seq<Cpu>
    var eras: seq<nat>
    var log: seq<Pkt>
    var done: seq<Delivery>

    ghost function Model(): Sys
      reads this
    {
      Sys(fgs, cpus, eras, log, done)
    }

    constructor (nrCpus: nat, nrFgs: nat)
      ensures Model() == Boot(nrCpus, nrFgs) && Inv(Model())
    {
      fgs := seq(nrFgs, _ => Fg(-1, 0, 0, false));
      cpus := seq(nrCpus, _ => Cpu([], [], [], Info(-1, 0, {}), false, []));
      eras, log, done := seq(nrFgs, _ => 0), [], [];
      new;
      BootInv(nrCpus, nrFgs);
    }

    /** eth_recv with eth_recv_handle_fg_transition on CPU c. */
    method EthRecv(c: nat, g: nat) returns (queued: bool)
      requires RecvOk(Model(), c, g)
      modifies this
      ensures Model() == Recv(old(Model()), c, g) && (queued <==> log != old(log))
    {
      var f := fgs[g];
      var p := Pkt(|log|, g, 2 * eras[g]);
      if !f.moving && f.cur == c {
        if |cpus[c].rx| >= ETH_RX_MAX_DEPTH {
          return false;
        }
        cpus := cpus[c := cpus[c].(rx := cpus[c].rx + [p])];
      } else if f.moving && f.prev == c {
        cpus := cpus[f.target := cpus[f.target].(remote := cpus[f.target].remote + [p])];
      } else if f.moving && f.target == c {
        p := p.(key := p.key + 1);
        if cpus[c].local == [] {
          var q := cpus[c].info.prev;
          cpus := cpus[q := cpus[q].(runs := [Early] + cpus[q].runs)];
        }
        cpus := cpus[c := cpus[c].(local := cpus[c].local + [p])];
      } else {
        return false;
      }
      log := log + [p];
      return true;
    }

    /** eth_input for every packet of a queue. */
    method EthInput(q: seq<Pkt>, c: nat)
      modifies this`done
      ensures done == old(done) + Deliver(q, c, fgs)
    {
      for i := 0 to |q|
        invariant done + Deliver(q[i..], c, fgs) == old(done) + Deliver(q, c, fgs)
      {
        assert q[i..][1..] == q[i + 1..];
        done := done + [Delivery(q[i], c, if q[i].fg < |fgs| then Owner(fgs[q[i].fg]) else -1)];
      }
      assert q[|q|..] == [];
    }

    /** eth_process_recv_queue. */
    method ProcessRecvQueue(c: nat)
      requires c < |cpus|
      modifies this
      ensures Model() == Process(old(Model()), c)
    {
      var rx := cpus[c].rx;
      if rx != [] {
        cpus := cpus[c := cpus[c].(rx := rx[1..])];
        EthInput([rx[0]], c);
      }
    }

    /** eth_fg_assign_single_to_cpu: whether the group has to move. */
    method AssignSingle(c: nat, t: nat, g: nat) returns (moves: bool)
      requires AssignableOne(Model(), c, t, g)
      modifies this`fgs, this`cpus
      ensures Model() == AssignOne(old(Model()), c, t, g) && moves == Moves(old(fgs)[g], t)
    {
      var f := fgs[g];
      if f.cur == t {
        return false;
      } else if f.cur == -1 {
        fgs := fgs[g := f.(cur := t)];
        return false;
      }
      fgs := fgs[g := Fg(-1, f.cur, t, true)];
      var kept, moved := MigratePkts(cpus[c].rx, g);
      cpus := cpus[c := cpus[c].(rx := kept)];
      cpus := cpus[t := cpus[t].(remote := cpus[t].remote + moved)];
      return true;
    }

    /** The loop of eth_fg_assign_to_cpu over the bits of a bitmap, in ascending order. */
    method AssignLoop(c: nat, t: nat, gs: seq<nat>) returns (moved: set<nat>)
      requires AssignableAll(Model(), c, t, gs) && forall i, j | 0 <= i < j < |gs| :: gs[i] < gs[j]
      modifies this`fgs, this`cpus
      ensures Model() == AssignAll(old(Model()), c, t, gs) && moved == Moved(old(fgs), t, gs)
    {
      moved := {};
      assert gs[0..] == gs;
      for i := 0 to |gs|
        invariant AssignableAll(Model(), c, t, gs[i..])
        invariant AssignAll(Model(), c, t, gs[i..]) == AssignAll(old(Model()), c, t, gs)
        invariant |fgs| == |old(fgs)| && forall k | i <= k < |gs| && gs[k] < |fgs| :: fgs[gs[k]] == old(fgs)[gs[k]]
        invariant moved == Moved(old(fgs), t, gs[..i])
      {
        AssignStep(Model(), c, t, gs, i);
        MovedStep(old(fgs), t, gs, i);
        var moves := AssignSingle(c, t, gs[i]);
        if moves {
          moved := moved + {gs[i]};
        }
      }
      assert gs[..|gs|] == gs && gs[|gs|..] == [];
    }

    /** eth_fg_assign_to_cpu on CPU c. */
    method AssignToCpu(c: nat, t: nat, gs: seq<nat>)
      requires Assignable(Model(), c, t, gs) && forall i, j | 0 <= i < j < |gs| :: gs[i] < gs[j]
      modifies this
      ensures Model() == Assign(old(Model()), c, t, gs)
    {
      var moved := AssignLoop(c, t, gs);
      if moved == {} {
        cpus := cpus[c := cpus[c].(info := cpus[c].info.(groups := {}))];
      } else {
        var info := Info(c, t, moved);
        cpus := cpus[c := cpus[c].(info := info, timer := true)];
        cpus := cpus[t := cpus[t].(info := info)];
      }
    }

    /** cpu_run_on_one of transition_handler_target, by transition_handler_prev and its early form. */
    method HandOver(c: nat)
      requires TimerOk(Model(), c)
      modifies this`cpus
      ensures Model() == PassOn(old(Model()), c)
    {
      var t := cpus[c].info.target;
      cpus := cpus[c := cpus[c].(timer := false)];
      cpus := cpus[t := cpus[t].(runs := [Finish(c)] + cpus[t].runs)];
    }

    /** early_transition_handler_prev, as runner i of CPU c. */
    method EarlyTransition(c: nat, i: nat)
      requires c < |cpus| && i < |cpus[c].runs| && (cpus[c].timer ==> 0 <= cpus[c].info.target < |cpus|)
      modifies this`cpus
      ensures Model() == RunEarly(old(Model()), c, i)
    {
      cpus := cpus[c := cpus[c].(runs := cpus[c].runs[..i] + cpus[c].runs[i + 1..])];
      if !cpus[c].timer {
        return;
      }
      HandOver(c);
    }

    /** The first loop of transition_handler_target. */
    method TakeOver(groups: set<nat>)
      requires |eras| == |fgs|
      modifies this`fgs, this`eras
      ensures fgs == Arrived(old(fgs), groups) && eras == Aged(old(eras), groups)
    {
      for g := 0 to |fgs|
        invariant |fgs| == |old(fgs)| == |eras|
        invariant forall k | 0 <= k < g ::
                    fgs[k] == Arrived(old(fgs), groups)[k] && eras[k] == Aged(old(eras), groups)[k]
        invariant forall k | g <= k < |fgs| :: fgs[k] == old(fgs)[k] && eras[k] == old(eras)[k]
      {
        if g in groups {
          fgs := fgs[g := Fg(fgs[g].target, -1, -1, false)];
          eras := eras[g := eras[g] + 1];
        }
      }
    }

    /** transition_handler_target, as runner i of CPU c, for the migration of CPU q. */
    method TransitionTarget(c: nat, i: nat, q: nat)
      requires c < |cpus| && i < |cpus[c].runs| && q < |cpus| && |eras| == |fgs|
      modifies this
      ensures Model() == RunFinish(old(Model()), c, i, q)
    {
      TakeOver(cpus[q].info.groups);
      EthInput(cpus[c].remote, c);
      EthInput(cpus[c].local, c);
      cpus := cpus[c := cpus[c].(runs := cpus[c].runs[..i] + cpus[c].runs[i + 1..])];
      cpus := cpus[c := cpus[c].(remote := [], local := [], info := cpus[c].info.(prev := -1))];
      cpus := cpus[q := cpus[q].(info := cpus[q].info.(prev := -1))];
    }
  }
}
