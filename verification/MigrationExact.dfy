/** Every migration ends, and how (dp/core/ethfg.c): the steps that start a migration, pass it on and end
    it, each stated by what it leaves behind, from any reachable state.

    `MigrationEnds` and `HurriedAlways` are the results. */
module MigrationExact {
  import opened Common
  import opened Migration

  // ---------------------------------------------------------------------------------------------
  // Passing on
  // ---------------------------------------------------------------------------------------------

  /** From s to r nothing happened but that CPU c has given its migration to CPU t to finish. */
  ghost predicate PassedOn(s: Sys, r: Sys, c: nat, t: nat) {
    && c < |s.cpus| == |r.cpus| && t < |s.cpus| && c != t
    && r == s.(cpus := r.cpus)
    && r.cpus[c] == s.cpus[c].(timer := false)
    && Finishers(s.cpus[t].runs) == [] && FinishOk(r, t, 0, c) && Finishers(r.cpus[t].runs) == [c]
    && r.cpus[t] == s.cpus[t].(runs := r.cpus[t].runs) && r.cpus[t].runs[1..] == s.cpus[t].runs
    && (forall d | 0 <= d < |s.cpus| && d != c && d != t :: r.cpus[d] == s.cpus[d])
  }

  /** The timeout hands the migration to its target. */
  lemma TimerPassesOn(s: Sys, c: nat)
    requires Inv(s) && c < |s.cpus| && s.cpus[c].timer
    ensures TimerOk(s, c) && PassedOn(s, TimerFires(s, c), c, s.cpus[c].info.target)
    ensures Inv(TimerFires(s, c))
  {
    assert CpuOk(s, c);
    PassOnKeeps(s, c);
    var t, r := s.cpus[c].info.target, TimerFires(s, c);
    FinishersFirst(Finish(c), s.cpus[t].runs);
    assert r.cpus[t].runs[1..] == s.cpus[t].runs;
  }

  /** The early handler leaves the run list, and does as the timeout if that is still pending. */
  lemma EarlyPassesOn(s: Sys, c: nat, i: nat)
    requires Inv(s) && c < |s.cpus| && i < |s.cpus[c].runs| && s.cpus[c].runs[i].Early?
    ensures s.cpus[c].timer ==> 0 <= s.cpus[c].info.target < |s.cpus|
    ensures var r, rest := RunEarly(s, c, i), Unlist(s, c, i);
      && Inv(r) && Inv(rest)
      && (s.cpus[c].timer ==> PassedOn(rest, r, c, s.cpus[c].info.target))
      && (!s.cpus[c].timer ==> r == rest)
      && multiset(s.cpus[c].runs) == multiset(r.cpus[c].runs) + multiset{Early}
  {
    EarlyKeeps(s, c, i);
    UnlistEarly(s, c, i);
    var rest := Unlist(s, c, i);
    QueuesFramed(s, rest);
    var runs := s.cpus[c].runs;
    assert runs == runs[..i] + [runs[i]] + runs[i + 1..];
    if s.cpus[c].timer {
      TimerPassesOn(rest, c);
    }
  }

  // ---------------------------------------------------------------------------------------------
  // The end
  // ---------------------------------------------------------------------------------------------

  /** Group g has settled on CPU t with nothing waiting: everything accepted of it has been delivered. */
  ghost predicate Settled(r: Sys, g: nat, t: nat) {
    && g < |r.fgs| && r.fgs[g] == Fg(t, -1, -1, false) && Front(r, g) == [] && Back(r, g) == []
    && multiset(OnlyDone(r.done, g)) == multiset(Only(r.log, g))
  }

  /** A CPU takes no part in any migration: it may give groups away or be given some. */
  predicate Idle(u: Cpu) {
    u.info.prev == -1 && !u.timer && u.remote == [] && u.local == [] && Finishers(u.runs) == []
  }

  /** Running the finish frees both CPUs and touches no other. */
  lemma FinishFrees(s: Sys, t: nat, i: nat, c: nat)
    requires Inv(s) && FinishOk(s, t, i, c)
    ensures c < |s.cpus| && c != t
    ensures var r := RunFinish(s, t, i, c);
      && |r.fgs| == |s.fgs| && |r.cpus| == |s.cpus| && r.log == s.log
      && Idle(r.cpus[c]) && Idle(r.cpus[t])
      && r.cpus[c].rx == s.cpus[c].rx && r.cpus[t].rx == s.cpus[t].rx && r.cpus[c].runs == s.cpus[c].runs
      && (forall d | 0 <= d < |s.cpus| && d != c && d != t :: r.cpus[d] == s.cpus[d])
  {
    FinishIsActive(s, t, i, c);
    assert CpuOk(s, c);
  }

  /** Its groups have settled, with what waited in front delivered first; no other group has changed. */
  lemma FinishSettles(s: Sys, t: nat, i: nat, c: nat, g: nat)
    requires Inv(s) && FinishOk(s, t, i, c) && g < |s.fgs|
    ensures c < |s.cpus| && Inv(RunFinish(s, t, i, c))
    ensures var r := RunFinish(s, t, i, c);
      && |r.fgs| == |s.fgs|
      && (g in s.cpus[c].info.groups <==> s.fgs[g].moving && s.fgs[g].target == t)
      && (g in s.cpus[c].info.groups ==>
            && Settled(r, g, t) && r.eras[g] == s.eras[g] + 1
            && OnlyDone(r.done, g) == OnlyDone(s.done, g) + Front(s, g) + Back(s, g))
      && (g !in s.cpus[c].info.groups ==> r.fgs[g] == s.fgs[g] && ViewOf(r, g) == ViewOf(s, g))
  {
    FinishIsActive(s, t, i, c);
    FinishKeeps(s, t, i, c);
    if g in s.cpus[c].info.groups {
      FinishMoved(s, t, i, c, g);
      SettledAfter(s, RunFinish(s, t, i, c), g);
    } else {
      FinishOther(s, t, i, c, g);
    }
  }

  lemma SettledAfter(s: Sys, r: Sys, g: nat)
    requires Inv(r) && |s.fgs| == |s.eras| && g < |s.fgs| == |r.fgs| && |r.eras| == |r.fgs|
    requires ViewOf(r, g) == View(Line(ViewOf(s, g)), [], [], ViewOf(s, g).all, s.eras[g] + 1)
    ensures Front(r, g) == [] && Back(r, g) == [] && r.eras[g] == s.eras[g] + 1
    ensures OnlyDone(r.done, g) == OnlyDone(s.done, g) + Front(s, g) + Back(s, g)
    ensures multiset(OnlyDone(r.done, g)) == multiset(Only(r.log, g))
  {
    assert ViewOk(ViewOf(r, g), |r.log|);
  }

  /** Where a run list has its finish. */
  function FinishAt(runs: seq<Runner>): (i: nat)
    requires Finishers(runs) != []
    ensures i < |runs| && runs[i] == Finish(Finishers(runs)[0])
  {
    if runs[0].Finish? then 0 else 1 + FinishAt(runs[1..])
  }

  /** The steps that are left of the migration from CPU c. */
  ghost function Ending(s: Sys, c: nat): (events: seq<Event>)
    requires Inv(s) && c < |s.cpus| && s.cpus[c].info.prev == c
  {
    assert CpuOk(s, c);
    var t := s.cpus[c].info.target;
    if s.cpus[c].timer then [TimerEvent(c), RunEvent(t, 0)] else [RunEvent(t, FinishAt(s.cpus[t].runs))]
  }

  /** Steps e, or e and f, from s. */
  lemma ExecOne(s: Sys, e: Event)
    requires Inv(s) && Enabled(s, e)
    ensures Legal(s, [e]) && Exec(s, [e]) == Apply(s, e)
  {
    ApplyKeeps(s, e);
    assert [e][1..] == [];
    assert Legal(Apply(s, e), []);
  }

  lemma ExecTwo(s: Sys, e: Event, f: Event)
    requires Inv(s) && Enabled(s, e) && Inv(Apply(s, e)) && Enabled(Apply(s, e), f)
    ensures Legal(s, [e, f]) && Exec(s, [e, f]) == Apply(Apply(s, e), f)
  {
    ExecOne(Apply(s, e), f);
    assert [e, f][1..] == [f];
  }

  /** What the end of the migration from c to t leaves, seen from before. */
  ghost predicate Ended(s: Sys, r: Sys, c: nat, t: nat) {
    && c < |s.cpus| == |r.cpus| && t < |s.cpus| && |r.fgs| == |s.fgs| == |r.eras| == |s.eras|
    && Idle(r.cpus[c]) && Idle(r.cpus[t])
    && (forall g | 0 <= g < |s.fgs| ::
          if g in s.cpus[c].info.groups then Settled(r, g, t)
          else r.fgs[g] == s.fgs[g] && ViewOf(r, g) == ViewOf(s, g))
    && (forall d | 0 <= d < |s.cpus| && d != c && d != t :: r.cpus[d] == s.cpus[d])
    && r.log == s.log
  }

  lemma FinishEnds(s: Sys, c: nat, t: nat, i: nat, r: Sys)
    requires Inv(s) && FinishOk(s, t, i, c) && c < |s.cpus| && r == RunFinish(s, t, i, c)
    ensures Inv(r) && Ended(s, r, c, t)
  {
    FinishFrees(s, t, i, c);
    FinishKeeps(s, t, i, c);
    forall g | 0 <= g < |s.fgs|
      ensures if g in s.cpus[c].info.groups then Settled(r, g, t)
              else r.fgs[g] == s.fgs[g] && ViewOf(r, g) == ViewOf(s, g)
    {
      FinishSettles(s, t, i, c, g);
    }
  }

  /** Passing on changes nothing about any group, so the end is the same seen from before it. */
  lemma EndedBefore(s: Sys, m: Sys, r: Sys, c: nat, t: nat)
    requires Inv(s) && PassedOn(s, m, c, t) && Ended(m, r, c, t) && |m.eras| == |m.fgs|
    ensures Ended(s, r, c, t)
  {
    forall g | 0 <= g < |s.fgs|
      ensures ViewOf(m, g) == ViewOf(s, g)
    {
      PassedOnView(s, m, c, t, g);
    }
  }

  lemma PassedOnView(s: Sys, m: Sys, c: nat, t: nat, g: nat)
    requires PassedOn(s, m, c, t) && g < |s.fgs| == |s.eras|
    ensures ViewOf(m, g) == ViewOf(s, g)
  {
    assert forall d | 0 <= d < |s.cpus| :: SameQueues(s.cpus[d], m.cpus[d]);
  }

  /** The timeout, then the finish. */
  lemma TimerEnds(s: Sys, c: nat)
    requires Inv(s) && c < |s.cpus| && s.cpus[c].timer
    ensures 0 <= s.cpus[c].info.target < |s.cpus|
    ensures var t := s.cpus[c].info.target; var events := [TimerEvent(c), RunEvent(t, 0)];
      Legal(s, events) && Ended(s, Exec(s, events), c, t)
  {
    TimerPassesOn(s, c);
    var t, m := s.cpus[c].info.target, TimerFires(s, c);
    var r := RunFinish(m, t, 0, c);
    FinishEnds(m, c, t, 0, r);
    EndedBefore(s, m, r, c, t);
    ExecTwo(s, TimerEvent(c), RunEvent(t, 0));
  }

  /** An early handler that waits on the source, then the finish. */
  lemma EarlyEnds(s: Sys, c: nat, i: nat)
    requires Inv(s) && c < |s.cpus| && s.cpus[c].timer && i < |s.cpus[c].runs| && s.cpus[c].runs[i].Early?
    ensures 0 <= s.cpus[c].info.target < |s.cpus|
    ensures var t := s.cpus[c].info.target; var events := [RunEvent(c, i), RunEvent(t, 0)];
      Legal(s, events) && Ended(Unlist(s, c, i), Exec(s, events), c, t)
  {
    EarlyPassesOn(s, c, i);
    var t, rest, m := s.cpus[c].info.target, Unlist(s, c, i), RunEarly(s, c, i);
    var r := RunFinish(m, t, 0, c);
    FinishEnds(m, c, t, 0, r);
    EndedBefore(rest, m, r, c, t);
    ExecTwo(s, RunEvent(c, i), RunEvent(t, 0));
  }

  /** From every reachable state each migration under way can be ended by its own steps alone, at most two:
      its timeout, if that has not gone off, and the finish on its target. Then its groups are owned by the
      target with everything delivered, nothing else has changed, and both CPUs are free. */
  lemma MigrationEnds(cpus: nat, fgs: nat, events: seq<Event>, c: nat)
    requires LegalRun(cpus, fgs, events) && c < |Run(cpus, fgs, events).cpus|
    requires Run(cpus, fgs, events).cpus[c].info.prev == c
    ensures var s := Run(cpus, fgs, events);
      Legal(s, Ending(s, c)) && 0 <= s.cpus[c].info.target
      && Ended(s, Exec(s, Ending(s, c)), c, s.cpus[c].info.target)
  {
    var s := Run(cpus, fgs, events);
    if s.cpus[c].timer {
      TimerEnds(s, c);
    } else {
      assert CpuOk(s, c);
      var t := s.cpus[c].info.target;
      assert RunsOk(s, t);
      var i := FinishAt(s.cpus[t].runs);
      FinishEnds(s, c, t, i, RunFinish(s, t, i, c));
      ExecOne(s, RunEvent(t, i));
    }
  }

  // ---------------------------------------------------------------------------------------------
  // Nothing else ends it
  // ---------------------------------------------------------------------------------------------

  /** The step runs the finish of the migration from CPU c. */
  predicate Finishes(s: Sys, e: Event, c: nat) {
    e.RunEvent? && e.cpu < |s.cpus| && e.runner < |s.cpus[e.cpu].runs| && s.cpus[e.cpu].runs[e.runner] == Finish(c)
  }

  /** A migration under way keeps its target and its groups until its finish runs. */
  lemma OnlyFinishEnds(s: Sys, e: Event, c: nat)
    requires Inv(s) && Enabled(s, e) && c < |s.cpus| && s.cpus[c].info.prev == c && !Finishes(s, e, c)
    ensures |Apply(s, e).cpus| == |s.cpus| && Apply(s, e).cpus[c].info == s.cpus[c].info
  {
    assert CpuOk(s, c);
    match e
    case RecvEvent(d, g) => RecvControl(s, d, g);
    case ProcessEvent(d) =>
    case AssignEvent(d, t, gs) => AssignElsewhere(s, d, t, gs, c);
    case TimerEvent(d) => PassOnControl(s, d);
    case RunEvent(d, i) =>
      if s.cpus[d].runs[i].Early? {
        EarlyOk(s, d);
      } else {
        FinishIsActive(s, d, i, s.cpus[d].runs[i].from);
      }
  }

  // ---------------------------------------------------------------------------------------------
  // The packet that hurries
  // ---------------------------------------------------------------------------------------------

  /** A packet waits at the target and the timeout is pending: the source has been told to hurry. */
  ghost predicate Hurried(s: Sys, c: nat)
    requires c < |s.cpus|
  {
    var t := s.cpus[c].info.target;
    s.cpus[c].timer && 0 <= t < |s.cpus| && s.cpus[t].local != [] ==> Early in s.cpus[c].runs
  }

  ghost predicate AllHurried(s: Sys) {
    forall c | 0 <= c < |s.cpus| :: Hurried(s, c)
  }

  lemma RecvHurries(s: Sys, d: nat, g: nat)
    requires Inv(s) && AllHurried(s) && d < |s.cpus| && g < |s.fgs|
    ensures RecvOk(s, d, g) && AllHurried(Recv(s, d, g))
  {
    RecvControl(s, d, g);
    var r := Recv(s, d, g);
    forall c | 0 <= c < |r.cpus|
      ensures Hurried(r, c)
    {
      assert CpuOk(s, c) && FgOk(s, g) && Hurried(s, c) && CpuOk(s, d);
    }
  }

  lemma AssignHurries(s: Sys, d: nat, t: nat, gs: seq<nat>)
    requires Inv(s) && AllHurried(s) && d < |s.cpus| && Assignable(s, d, t, gs)
    ensures AllHurried(Assign(s, d, t, gs))
  {
    var r := Assign(s, d, t, gs);
    AssignControl(s, d, t, gs);
    assert CpuOk(s, t) && CpuOk(s, d);
    AssignAllCpus(s, d, t, gs, t);
    AssignAllCpus(s, d, t, gs, d);
    forall c | 0 <= c < |r.cpus|
      ensures Hurried(r, c)
    {
      assert CpuOk(s, c) && Hurried(s, c);
      AssignAllCpus(s, d, t, gs, c);
      var u := s.cpus[c].info.target;
      if 0 <= u < |s.cpus| {
        AssignAllCpus(s, d, t, gs, u);
      }
    }
  }

  lemma PassOnHurries(s: Sys, d: nat)
    requires Inv(s) && d < |s.cpus| && s.cpus[d].timer
    requires forall c | 0 <= c < |s.cpus| && c != d :: Hurried(s, c)
    ensures TimerOk(s, d) && AllHurried(PassOn(s, d))
  {
    PassOnControl(s, d);
    var r := PassOn(s, d);
    forall c | 0 <= c < |r.cpus|
      ensures Hurried(r, c)
    {
      assert c != d ==> Hurried(s, c);
    }
  }

  lemma EarlyHurries(s: Sys, d: nat, i: nat)
    requires Inv(s) && AllHurried(s) && d < |s.cpus| && i < |s.cpus[d].runs| && s.cpus[d].runs[i].Early?
    ensures s.cpus[d].timer ==> 0 <= s.cpus[d].info.target < |s.cpus|
    ensures AllHurried(RunEarly(s, d, i))
  {
    EarlyPassesOn(s, d, i);
    var rest := Unlist(s, d, i);
    forall c | 0 <= c < |s.cpus| && (c != d || !s.cpus[d].timer)
      ensures Hurried(rest, c)
    {
      assert Hurried(s, c);
    }
    if s.cpus[d].timer {
      PassOnHurries(rest, d);
    }
  }

  lemma FinishHurries(s: Sys, t: nat, i: nat, q: nat)
    requires Inv(s) && AllHurried(s) && FinishOk(s, t, i, q)
    ensures q < |s.cpus| && AllHurried(RunFinish(s, t, i, q))
  {
    FinishIsActive(s, t, i, q);
    var r := RunFinish(s, t, i, q);
    forall c | 0 <= c < |r.cpus|
      ensures Hurried(r, c)
    {
      assert Hurried(s, c) && CpuOk(s, c);
    }
  }

  lemma ApplyHurries(s: Sys, e: Event)
    requires Inv(s) && Enabled(s, e) && AllHurried(s)
    ensures AllHurried(Apply(s, e))
  {
    match e
    case RecvEvent(c, g) => RecvHurries(s, c, g);
    case ProcessEvent(c) => ProcessHurries(s, c);
    case AssignEvent(c, t, gs) => AssignHurries(s, c, t, gs);
    case TimerEvent(c) => PassOnHurries(s, c);
    case RunEvent(c, i) =>
      if s.cpus[c].runs[i].Early? {
        EarlyHurries(s, c, i);
      } else {
        FinishHurries(s, c, i, s.cpus[c].runs[i].from);
      }
  }

  lemma ProcessHurries(s: Sys, d: nat)
    requires AllHurried(s) && d < |s.cpus|
    ensures AllHurried(Process(s, d))
  {
    var r := Process(s, d);
    forall c | 0 <= c < |r.cpus|
      ensures Hurried(r, c)
    {
      assert Hurried(s, c);
    }
  }

  lemma {:induction false} ExecHurries(s: Sys, events: seq<Event>)
    requires Inv(s) && Legal(s, events) && AllHurried(s)
    ensures AllHurried(Exec(s, events))
    decreases |events|
  {
    if events != [] {
      ApplyKeeps(s, events[0]);
      ApplyHurries(s, events[0]);
      ExecHurries(Apply(s, events[0]), events[1..]);
    }
  }

  /** In every run, when a packet waits at the target of a migration whose timeout is pending, an early
      handler waits on its source, and that handler and the finish end the migration at once. */
  lemma HurriedAlways(cpus: nat, fgs: nat, events: seq<Event>, c: nat) returns (i: nat)
    requires LegalRun(cpus, fgs, events) && c < |Run(cpus, fgs, events).cpus|
    requires Run(cpus, fgs, events).cpus[c].timer && 0 <= Run(cpus, fgs, events).cpus[c].info.target
    requires Run(cpus, fgs, events).cpus[c].info.target < |Run(cpus, fgs, events).cpus|
    requires Run(cpus, fgs, events).cpus[Run(cpus, fgs, events).cpus[c].info.target].local != []
    ensures var s := Run(cpus, fgs, events);
      i < |s.cpus[c].runs| && s.cpus[c].runs[i].Early?
    ensures var s := Run(cpus, fgs, events); var t := s.cpus[c].info.target;
      var hurry := [RunEvent(c, i), RunEvent(t, 0)];
      Legal(s, hurry) && Ended(Unlist(s, c, i), Exec(s, hurry), c, t)
  {
    BootInv(cpus, fgs);
    ExecHurries(Boot(cpus, fgs), events);
    var s := Run(cpus, fgs, events);
    assert Hurried(s, c);
    i :| 0 <= i < |s.cpus[c].runs| && s.cpus[c].runs[i] == Early;
    EarlyEnds(s, c, i);
  }

  // ---------------------------------------------------------------------------------------------
  // The start
  // ---------------------------------------------------------------------------------------------

  /** eth_fg_assign_to_cpu on CPU c: the groups of c that were asked to go elsewhere are in transition and
      the rest of those asked for are owned by t; the migration under way is of just those in transition. */
  lemma AssignExactly(s: Sys, c: nat, t: nat, gs: seq<nat>, g: nat)
    requires Inv(s) && c < |s.cpus| && Assignable(s, c, t, gs) && g < |s.fgs|
    ensures var r := Assign(s, c, t, gs);
      && |r.fgs| == |s.fgs| && |r.cpus| == |s.cpus|
      && (g !in gs ==> r.fgs[g] == s.fgs[g])
      && (g in gs && s.fgs[g].cur == c != t ==>
            r.fgs[g] == Fg(-1, c, t, true) && r.cpus[c].timer && MovingFrom(r, c, g) && r.cpus[t].info.prev == c)
      && (g in gs && !(s.fgs[g].cur == c != t) ==> !r.fgs[g].moving && r.fgs[g].cur == t)
      && (g in r.cpus[c].info.groups ==> g in gs && s.fgs[g].cur == c != t)
  {
    AssignAllGroups(s, c, t, gs, g);
    if g in gs && s.fgs[g].cur == c != t {
      assert g in Moved(s.fgs, t, gs);
    }
  }

  /** The packets that wait still wait, in their order. */
  lemma AssignKeepsPackets(s: Sys, c: nat, t: nat, gs: seq<nat>, g: nat)
    requires Inv(s) && c < |s.cpus| && Assignable(s, c, t, gs) && g < |s.fgs|
    ensures var r := Assign(s, c, t, gs);
      |r.fgs| == |s.fgs| == |r.eras| && r.log == s.log && r.done == s.done && ViewOf(r, g) == ViewOf(s, g)
  {
    AssignAllRest(s, c, t, gs, g);
    AssignAllEras(s, c, t, gs);
    var r, s1 := Assign(s, c, t, gs), AssignAll(s, c, t, gs);
    assert forall d | 0 <= d < |r.cpus| :: SameQueues(s1.cpus[d], r.cpus[d]);
    AssignLast(s1, r, g);
  }

  lemma AssignLast(s1: Sys, r: Sys, g: nat)
    requires |r.fgs| == |r.eras| && r == s1.(cpus := r.cpus) && |r.cpus| == |s1.cpus| && g < |r.fgs|
    requires forall d | 0 <= d < |r.cpus| :: SameQueues(s1.cpus[d], r.cpus[d])
    ensures ViewOf(r, g) == ViewOf(s1, g)
  {
    var f := r.fgs[g];
    if f.moving && 0 <= f.target < |r.cpus| {
      assert SameQueues(s1.cpus[f.target], r.cpus[f.target]);
    } else if !f.moving && 0 <= f.cur < |r.cpus| {
      assert SameQueues(s1.cpus[f.cur], r.cpus[f.cur]);
    }
  }

  /** Nothing asked for has to move: no migration starts. */
  lemma AssignNothing(s: Sys, c: nat, t: nat, gs: seq<nat>)
    requires Inv(s) && c < |s.cpus| && Assignable(s, c, t, gs)
    requires forall i | 0 <= i < |gs| :: gs[i] < |s.fgs| && !(s.fgs[gs[i]].cur == c != t)
    ensures var r := Assign(s, c, t, gs);
      |r.cpus| == |s.cpus| && r.cpus[c].info.prev == -1 && r.cpus[t].info.prev == -1 && !r.cpus[c].timer
  {
    AssignControl(s, c, t, gs);
    var r := Assign(s, c, t, gs);
    AssignAllCpus(s, c, t, gs, c);
    AssignAllCpus(s, c, t, gs, t);
    forall g | g in Moved(s.fgs, t, gs)
      ensures false
    {
      AssignAllGroups(s, c, t, gs, g);
    }
    assert Moved(s.fgs, t, gs) == {};
    IdleCpu(s, c, c);
  }
}
