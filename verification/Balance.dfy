/** The balancing of flow groups over CPUs, set_cpus of cp/ixcp.py: every chosen CPU gets its share of the
    groups, all others none.

    `SetCpus` states the result for any start and any choice of the groups in each batch; `LeastMoves` says
    that no other way of reaching it moves fewer groups. */
module Balance {
  import opened Common

  /** A call of migrate. */
  datatype Move = Move(source: nat, target: nat, batch: set<nat>)

  // ---------------------------------------------------------------------------------------------
  // Shares
  // ---------------------------------------------------------------------------------------------

  function Sum(a: seq<nat>): nat {
    if a == [] then 0 else a[0] + Sum(a[1..])
  }

  /** The share of the i-th chosen CPU, of n groups over m CPUs. */
  function Share(n: nat, m: nat, i: nat): nat
    requires m > 0
  {
    n / m + if i < n % m then 1 else 0
  }

  /** cpus.index */
  function IndexOf(cpus: seq<nat>, c: nat): (i: nat)
    requires c in cpus
    ensures i < |cpus| && cpus[i] == c && c !in cpus[..i]
  {
    if cpus[0] == c then 0 else 1 + IndexOf(cpus[1..], c)
  }

  /** fgs_at for a chosen CPU, and nothing for the others. */
  function Want(cpus: seq<nat>, n: nat, c: nat): nat {
    if c in cpus then Share(n, |cpus|, IndexOf(cpus, c)) else 0
  }

  function Wants(cpus: seq<nat>, n: nat, size: nat): (w: seq<nat>)
    ensures |w| == size
  {
    seq(size, c requires 0 <= c < size => Want(cpus, n, c))
  }

  ghost predicate Distinct(cpus: seq<nat>) {
    forall i, j | 0 <= i < j < |cpus| :: cpus[i] != cpus[j]
  }

  lemma {:induction false} SumZeros(n: nat)
    ensures Sum(Repeat<nat>(n, 0)) == 0
    decreases n
  {
    if n > 0 {
      assert Repeat<nat>(n, 0)[1..] == Repeat<nat>(n - 1, 0);
      SumZeros(n - 1);
    }
  }

  lemma {:induction false} SumUpdate(a: seq<nat>, i: nat, x: nat)
    requires i < |a|
    ensures Sum(a[i := x]) + a[i] == Sum(a) + x
    decreases i
  {
    var r := a[i := x];
    if i == 0 {
      assert r[1..] == a[1..];
    } else {
      assert r[1..] == a[1..][i - 1 := x];
      SumUpdate(a[1..], i - 1, x);
    }
  }

  /** The first k shares, put where their CPUs are. */
  function Placed(cpus: seq<nat>, n: nat, size: nat, k: nat): (w: seq<nat>)
    requires k <= |cpus| && |cpus| > 0 && forall i | 0 <= i < |cpus| :: cpus[i] < size
    ensures |w| == size
    decreases k
  {
    if k == 0 then Repeat<nat>(size, 0) else Placed(cpus, n, size, k - 1)[cpus[k - 1] := Share(n, |cpus|, k - 1)]
  }

  lemma {:induction false} PlacedAt(cpus: seq<nat>, n: nat, size: nat, k: nat, c: nat)
    requires k <= |cpus| && |cpus| > 0 && (forall i | 0 <= i < |cpus| :: cpus[i] < size) && Distinct(cpus) && c < size
    ensures Placed(cpus, n, size, k)[c] ==
              if c in cpus && IndexOf(cpus, c) < k then Share(n, |cpus|, IndexOf(cpus, c)) else 0
    decreases k
  {
    if k > 0 {
      PlacedAt(cpus, n, size, k - 1, c);
      if c in cpus && cpus[k - 1] == c {
        var i := IndexOf(cpus, c);
        assert cpus[i] == cpus[k - 1];
      }
    }
  }

  lemma {:induction false} PlacedSum(cpus: seq<nat>, n: nat, size: nat, k: nat)
    requires k <= |cpus| && |cpus| > 0 && (forall i | 0 <= i < |cpus| :: cpus[i] < size) && Distinct(cpus)
    ensures Sum(Placed(cpus, n, size, k)) == k * (n / |cpus|) + if k < n % |cpus| then k else n % |cpus|
    decreases k
  {
    if k == 0 {
      SumZeros(size);
    } else {
      var w, c := Placed(cpus, n, size, k - 1), cpus[k - 1];
      PlacedSum(cpus, n, size, k - 1);
      PlacedAt(cpus, n, size, k - 1, c);
      assert IndexOf(cpus, c) == k - 1;
      SumUpdate(w, c, Share(n, |cpus|, k - 1));
      assert k * (n / |cpus|) == (k - 1) * (n / |cpus|) + n / |cpus|;
    }
  }

  /** The shares add up to all the groups. */
  lemma SharesAddUp(cpus: seq<nat>, n: nat, size: nat)
    requires |cpus| > 0 && (forall i | 0 <= i < |cpus| :: cpus[i] < size) && Distinct(cpus)
    ensures Sum(Wants(cpus, n, size)) == n
  {
    var m := |cpus|;
    PlacedSum(cpus, n, size, m);
    forall c | 0 <= c < size
      ensures Placed(cpus, n, size, m)[c] == Wants(cpus, n, size)[c]
    {
      PlacedAt(cpus, n, size, m, c);
    }
    assert Placed(cpus, n, size, m) == Wants(cpus, n, size);
    Rest(n, m);
  }

  lemma Rest(n: nat, m: nat)
    requires m > 0
    ensures m * (n / m) + n % m == n && n % m < m
  {
  }

  // ---------------------------------------------------------------------------------------------
  // Sums compared
  // ---------------------------------------------------------------------------------------------

  lemma {:induction false} SumMonotone(a: seq<nat>, b: seq<nat>)
    requires |a| == |b| && forall i | 0 <= i < |a| :: a[i] <= b[i]
    ensures Sum(a) <= Sum(b)
    decreases |a|
  {
    if a != [] {
      SumMonotone(a[1..], b[1..]);
    }
  }

  lemma {:induction false} SumStrict(a: seq<nat>, b: seq<nat>, k: nat)
    requires |a| == |b| && (forall i | 0 <= i < |a| :: a[i] <= b[i]) && k < |a| && a[k] < b[k]
    ensures Sum(a) < Sum(b)
    decreases |a|
  {
    if k == 0 {
      SumMonotone(a[1..], b[1..]);
    } else {
      SumStrict(a[1..], b[1..], k - 1);
    }
  }

  function Sizes(fg: seq<set<nat>>): (s: seq<nat>)
    ensures |s| == |fg|
  {
    seq(|fg|, c requires 0 <= c < |fg| => |fg[c]|)
  }

  /** How many groups the CPUs are short of. */
  function Deficit(have: seq<nat>, want: seq<nat>): nat
    requires |have| == |want|
  {
    if have == [] then 0
    else (if have[0] < want[0] then want[0] - have[0] else 0) + Deficit(have[1..], want[1..])
  }

  function Short(have: nat, want: nat): nat {
    if have < want then want - have else 0
  }

  lemma {:induction false} DeficitUpdate(have: seq<nat>, want: seq<nat>, i: nat, x: nat)
    requires |have| == |want| && i < |have|
    ensures Deficit(have[i := x], want) + Short(have[i], want[i]) == Deficit(have, want) + Short(x, want[i])
    decreases i
  {
    var r := have[i := x];
    if i == 0 {
      assert r[1..] == have[1..];
    } else {
      assert r[1..] == have[1..][i - 1 := x];
      DeficitUpdate(have[1..], want[1..], i - 1, x);
    }
  }

  lemma {:induction false} NoDeficit(have: seq<nat>, want: seq<nat>)
    requires |have| == |want| && forall i | 0 <= i < |have| :: have[i] >= want[i]
    ensures Deficit(have, want) == 0
    decreases |have|
  {
    if have != [] {
      NoDeficit(have[1..], want[1..]);
    }
  }

  // ---------------------------------------------------------------------------------------------
  // Moving groups
  // ---------------------------------------------------------------------------------------------

  /** No group on two CPUs. */
  ghost predicate Partition(fg: seq<set<nat>>) {
    forall a, b | 0 <= a < b < |fg| :: fg[a] !! fg[b]
  }

  ghost predicate Has(fg: seq<set<nat>>, g: nat) {
    exists c | 0 <= c < |fg| :: g in fg[c]
  }

  /** All groups, wherever they are. */
  function Groups(fg: seq<set<nat>>): set<nat> {
    if fg == [] then {} else fg[0] + Groups(fg[1..])
  }

  lemma {:induction false} GroupsHas(fg: seq<set<nat>>, g: nat)
    ensures g in Groups(fg) <==> Has(fg, g)
    decreases |fg|
  {
    if fg != [] {
      var rest := fg[1..];
      GroupsHas(rest, g);
      if Has(rest, g) {
        var c :| 0 <= c < |rest| && g in rest[c];
        assert fg[c + 1] == rest[c];
      }
      if Has(fg, g) && g !in fg[0] {
        var c :| 0 <= c < |fg| && g in fg[c];
        assert rest[c - 1] == fg[c];
      }
    }
  }

  lemma SameHas(fg: seq<set<nat>>, other: seq<set<nat>>)
    requires forall g :: Has(fg, g) <==> Has(other, g)
    ensures Groups(fg) == Groups(other)
  {
    forall g
      ensures g in Groups(fg) <==> g in Groups(other)
    {
      GroupsHas(fg, g);
      GroupsHas(other, g);
    }
  }

  predicate CanMove(fg: seq<set<nat>>, m: Move) {
    m.source < |fg| && m.target < |fg| && m.source != m.target && m.batch <= fg[m.source]
  }

  function Moved(fg: seq<set<nat>>, m: Move): (r: seq<set<nat>>)
    requires CanMove(fg, m)
    ensures |r| == |fg|
  {
    fg[m.source := fg[m.source] - m.batch][m.target := fg[m.target] + m.batch]
  }

  lemma MovedPartition(fg: seq<set<nat>>, m: Move)
    requires CanMove(fg, m) && Partition(fg)
    ensures Partition(Moved(fg, m)) && Groups(Moved(fg, m)) == Groups(fg)
  {
    var r := Moved(fg, m);
    forall g
      ensures Has(fg, g) <==> Has(r, g)
    {
      if Has(fg, g) {
        var c :| 0 <= c < |fg| && g in fg[c];
        assert g in r[if g in m.batch then m.target else c];
      }
      if Has(r, g) {
        var c :| 0 <= c < |r| && g in r[c];
        assert g in fg[if g in m.batch then m.source else c];
      }
    }
    SameHas(fg, r);
  }

  lemma MovedSizes(fg: seq<set<nat>>, m: Move)
    requires CanMove(fg, m) && Partition(fg)
    ensures |m.batch| <= |fg[m.source]|
    ensures Sizes(Moved(fg, m)) ==
              Sizes(fg)[m.source := |fg[m.source]| - |m.batch|][m.target := |fg[m.target]| + |m.batch|]
  {
    var s, t := fg[m.source], fg[m.target];
    assert s !! t;
    assert s == (s - m.batch) + m.batch;
    assert |s| == |s - m.batch| + |m.batch|;
    assert |t + m.batch| == |t| + |m.batch|;
  }

  /** A surplus goes where there is a deficit. */
  predicate Useful(fg: seq<set<nat>>, want: seq<nat>, m: Move) {
    && |want| == |fg| && CanMove(fg, m) && m.batch != {}
    && |fg[m.target]| + |m.batch| <= want[m.target] && want[m.source] + |m.batch| <= |fg[m.source]|
  }

  lemma MovedSums(fg: seq<set<nat>>, want: seq<nat>, m: Move)
    requires Partition(fg) && Useful(fg, want, m)
    ensures Sum(Sizes(Moved(fg, m))) == Sum(Sizes(fg))
    ensures Deficit(Sizes(Moved(fg, m)), want) + |m.batch| == Deficit(Sizes(fg), want)
  {
    var a, n := Sizes(fg), |m.batch|;
    var b := a[m.source := a[m.source] - n];
    MovedSizes(fg, m);
    SumUpdate(a, m.source, a[m.source] - n);
    SumUpdate(b, m.target, a[m.target] + n);
    DeficitUpdate(a, want, m.source, a[m.source] - n);
    DeficitUpdate(b, want, m.target, a[m.target] + n);
  }

  /** The groups after a number of moves. */
  ghost predicate Follows(fg: seq<set<nat>>, moves: seq<Move>, r: seq<set<nat>>)
    decreases |moves|
  {
    if moves == [] then fg == r
    else CanMove(fg, moves[0]) && Follows(Moved(fg, moves[0]), moves[1..], r)
  }

  lemma {:induction false} FollowsLast(fg: seq<set<nat>>, moves: seq<Move>, r: seq<set<nat>>, m: Move)
    requires Follows(fg, moves, r) && CanMove(r, m)
    ensures Follows(fg, moves + [m], Moved(r, m))
    decreases |moves|
  {
    var all := moves + [m];
    if moves == [] {
      assert all[1..] == [];
    } else {
      assert all[1..] == moves[1..] + [m];
      FollowsLast(Moved(fg, moves[0]), moves[1..], r, m);
    }
  }

  function Total(moves: seq<Move>): nat {
    if moves == [] then 0 else |moves[0].batch| + Total(moves[1..])
  }

  lemma {:induction false} TotalLast(moves: seq<Move>, m: Move)
    ensures Total(moves + [m]) == Total(moves) + |m.batch|
    decreases |moves|
  {
    var all := moves + [m];
    if moves == [] {
      assert all[1..] == [];
    } else {
      assert all[1..] == moves[1..] + [m];
      TotalLast(moves[1..], m);
    }
  }

  // ---------------------------------------------------------------------------------------------
  // What every move keeps
  // ---------------------------------------------------------------------------------------------

  /** No group has moved twice. */
  ghost predicate MovedOnce(moves: seq<Move>) {
    forall i, j | 0 <= i < j < |moves| :: moves[i].batch !! moves[j].batch
  }

  /** A CPU that has got groups has no surplus. */
  ghost predicate NoSurplusAfter(fg: seq<set<nat>>, want: seq<nat>, moves: seq<Move>) {
    |fg| == |want| &&
    forall c, i | 0 <= c < |fg| && 0 <= i < |moves| :: fg[c] * moves[i].batch != {} ==> |fg[c]| <= want[c]
  }

  ghost predicate Inv(start: seq<set<nat>>, want: seq<nat>, fg: seq<set<nat>>, moves: seq<Move>) {
    && |start| == |want| == |fg| && Partition(fg) && Groups(fg) == Groups(start) && Follows(start, moves, fg)
    && Sum(Sizes(fg)) == Sum(want)
    && Total(moves) + Deficit(Sizes(fg), want) == Deficit(Sizes(start), want)
    && MovedOnce(moves) && NoSurplusAfter(fg, want, moves)
  }

  lemma MoveKeeps(start: seq<set<nat>>, want: seq<nat>, fg: seq<set<nat>>, moves: seq<Move>, m: Move)
    requires Inv(start, want, fg, moves) && Useful(fg, want, m)
    ensures Inv(start, want, Moved(fg, m), moves + [m])
  {
    MovedPartition(fg, m);
    MovedSums(fg, want, m);
    FollowsLast(start, moves, fg, m);
    TotalLast(moves, m);
    MoveOnceMore(fg, want, moves, m);
    NoSurplusKept(fg, want, moves, m);
  }

  lemma SourceUntouched(fg: seq<set<nat>>, want: seq<nat>, moves: seq<Move>, m: Move, i: nat)
    requires NoSurplusAfter(fg, want, moves) && Useful(fg, want, m) && i < |moves|
    ensures fg[m.source] * moves[i].batch == {} && moves[i].batch !! m.batch
  {
    assert |m.batch| > 0;
    forall g | g in m.batch
      ensures g !in moves[i].batch
    {
      assert g !in fg[m.source] * moves[i].batch;
    }
  }

  lemma MoveOnceMore(fg: seq<set<nat>>, want: seq<nat>, moves: seq<Move>, m: Move)
    requires NoSurplusAfter(fg, want, moves) && Useful(fg, want, m) && MovedOnce(moves)
    ensures MovedOnce(moves + [m])
  {
    var all := moves + [m];
    forall i, j | 0 <= i < j < |all|
      ensures all[i].batch !! all[j].batch
    {
      if j == |moves| {
        SourceUntouched(fg, want, moves, m, i);
      }
    }
  }

  /** The batch is at the target and nowhere else. */
  lemma BatchAtTarget(fg: seq<set<nat>>, m: Move, c: nat)
    requires CanMove(fg, m) && Partition(fg) && c < |fg| && c != m.target
    ensures Moved(fg, m)[c] * m.batch == {}
  {
    if c < m.source {
      assert fg[c] !! fg[m.source];
    } else if c > m.source {
      assert fg[m.source] !! fg[c];
    }
  }

  lemma NoSurplusKept(fg: seq<set<nat>>, want: seq<nat>, moves: seq<Move>, m: Move)
    requires NoSurplusAfter(fg, want, moves) && Useful(fg, want, m) && Partition(fg)
    ensures NoSurplusAfter(Moved(fg, m), want, moves + [m])
  {
    var r, all := Moved(fg, m), moves + [m];
    MovedSizes(fg, m);
    forall c, i | 0 <= c < |r| && 0 <= i < |all| && r[c] * all[i].batch != {}
      ensures |r[c]| <= want[c]
    {
      assert Sizes(r)[c] == |r[c]|;
      if c != m.target {
        BatchAtTarget(fg, m, c);
        var g :| g in r[c] * all[i].batch;
        assert g in fg[c] * moves[i].batch;
      }
    }
  }

  // ---------------------------------------------------------------------------------------------
  // The result
  // ---------------------------------------------------------------------------------------------

  /** While a CPU is short of groups, another one has a surplus. */
  lemma SurplusSomewhere(have: seq<nat>, want: seq<nat>, t: nat)
    requires |have| == |want| && Sum(have) == Sum(want) && t < |have|
    requires forall c | 0 <= c < |have| && c != t :: have[c] <= want[c]
    ensures have[t] >= want[t]
  {
    if have[t] < want[t] {
      SumStrict(have, want, t);
    }
  }

  /** CPUs that are not short are exactly satisfied. */
  lemma AllSatisfied(have: seq<nat>, want: seq<nat>, c: nat)
    requires |have| == |want| && Sum(have) == Sum(want) && c < |have|
    requires forall d | 0 <= d < |have| :: want[d] <= have[d]
    ensures have[c] == want[c]
  {
    if want[c] < have[c] {
      SumStrict(want, have, c);
    }
  }

  /** A move makes up for at most as many groups as it moves. */
  lemma DeficitDrop(fg: seq<set<nat>>, want: seq<nat>, m: Move)
    requires Partition(fg) && |want| == |fg| && CanMove(fg, m)
    ensures Deficit(Sizes(fg), want) <= Deficit(Sizes(Moved(fg, m)), want) + |m.batch|
  {
    MovedSizes(fg, m);
    var a, n := Sizes(fg), |m.batch|;
    var b := a[m.source := a[m.source] - n];
    DeficitUpdate(a, want, m.source, a[m.source] - n);
    DeficitUpdate(b, want, m.target, a[m.target] + n);
  }

  /** Whatever the moves, to give every CPU its share takes at least the deficit. */
  lemma {:induction false} LeastMoves(fg: seq<set<nat>>, want: seq<nat>, moves: seq<Move>, r: seq<set<nat>>)
    requires Partition(fg) && |want| == |fg| && Follows(fg, moves, r) && Sizes(r) == want
    ensures Total(moves) >= Deficit(Sizes(fg), want)
    decreases |moves|
  {
    if moves == [] {
      NoDeficit(Sizes(fg), want);
    } else {
      DeficitDrop(fg, want, moves[0]);
      MovedPartition(fg, moves[0]);
      LeastMoves(Moved(fg, moves[0]), want, moves[1..], r);
    }
  }

  // ---------------------------------------------------------------------------------------------
  // The program
  // ---------------------------------------------------------------------------------------------

  /** Some groups of a CPU: the last ones of a list whose order says nothing. */
  lemma {:induction false} SubsetExists(all: set<nat>, count: nat) returns (batch: set<nat>)
    requires count <= |all|
    ensures batch <= all && |batch| == count
    decreases count
  {
    if count == 0 {
      batch := {};
    } else {
      var rest := SubsetExists(all, count - 1);
      assert all == rest + (all - rest);
      assert |all - rest| > 0;
      var g :| g in all - rest;
      batch := rest + {g};
    }
  }

  /** The CPU is not short of groups. */
  predicate Fed(fg: seq<set<nat>>, want: seq<nat>, c: nat) {
    c < |fg| && c < |want| && |fg[c]| >= want[c]
  }

  /** fg_per_cpu, and the migrations made. */
  class ControlPlane {
    var fgPerCpu: seq<set<nat>>
    var moves: seq<Move>

    constructor (fgPerCpu: seq<set<nat>>)
      ensures this.fgPerCpu == fgPerCpu && moves == []
    {
      this.fgPerCpu, moves := fgPerCpu, [];
    }

    /** The body of the inner loop: what the source can spare, as far as the target needs it. */
    method TakeFrom(source: nat, target: nat, want: seq<nat>, ghost start: seq<set<nat>>)
      requires Inv(start, want, fgPerCpu, moves) && source < |fgPerCpu| && target < |fgPerCpu| && source != target
      modifies this
      ensures Inv(start, want, fgPerCpu, moves)
      ensures forall c | 0 <= c < |want| && c != source && c != target :: fgPerCpu[c] == old(fgPerCpu)[c]
      ensures |fgPerCpu[target]| >= want[target] || |fgPerCpu[source]| <= want[source]
      ensures |old(fgPerCpu)[target]| >= want[target] ==> fgPerCpu == old(fgPerCpu)
      ensures |fgPerCpu[source]| >= want[source] || fgPerCpu[source] == old(fgPerCpu)[source]
      ensures |fgPerCpu[source]| <= |old(fgPerCpu)[source]|
    {
      var need, spare := want[target] - |fgPerCpu[target]|, |fgPerCpu[source]| - want[source];
      var count := if need < spare then need else spare;
      if count <= 0 {
        return;
      }
      ghost var some := SubsetExists(fgPerCpu[source], count);
      var batch :| batch <= fgPerCpu[source] && |batch| == count;
      var m := Move(source, target, batch);
      assert batch != {};
      MoveKeeps(start, want, fgPerCpu, moves, m);
      MovedSizes(fgPerCpu, m);
      ghost var before := fgPerCpu;
      fgPerCpu := fgPerCpu[source := fgPerCpu[source] - batch][target := fgPerCpu[target] + batch];
      moves := moves + [m];
      assert Sizes(fgPerCpu)[source] == |before[source]| - count && Sizes(fgPerCpu)[target] == |before[target]| + count;
    }

    /** The inner loop: one target takes from every CPU in turn. */
    method FillTarget(target: nat, want: seq<nat>, ghost start: seq<set<nat>>)
      requires Inv(start, want, fgPerCpu, moves) && target < |fgPerCpu|
      modifies this
      ensures Inv(start, want, fgPerCpu, moves) && Fed(fgPerCpu, want, target)
      ensures forall c | Fed(old(fgPerCpu), want, c) :: Fed(fgPerCpu, want, c)
    {
      for source := 0 to |fgPerCpu|
        invariant Inv(start, want, fgPerCpu, moves)
        invariant forall c | Fed(old(fgPerCpu), want, c) :: Fed(fgPerCpu, want, c)
        invariant |fgPerCpu[target]| >= want[target] ||
                  forall c | 0 <= c < source && c != target :: |fgPerCpu[c]| <= want[c]
      {
        if source != target {
          TakeFrom(source, target, want, start);
        }
      }
      if |fgPerCpu[target]| < want[target] {
        forall c | 0 <= c < |want| && c != target
          ensures Sizes(fgPerCpu)[c] <= want[c]
        {
          assert |fgPerCpu[c]| <= want[c];
        }
        SurplusSomewhere(Sizes(fgPerCpu), want, target);
      }
    }

    /** set_cpus, for the chosen CPUs and the number of flow groups. */
    method SetCpus(cpus: seq<nat>, nrFlowGroups: nat)
      requires Partition(fgPerCpu) && Sum(Sizes(fgPerCpu)) == nrFlowGroups && moves == []
      requires |cpus| > 0 && Distinct(cpus) && forall i | 0 <= i < |cpus| :: cpus[i] < |fgPerCpu|
      modifies this
      ensures |fgPerCpu| == |old(fgPerCpu)| && Partition(fgPerCpu) && Groups(fgPerCpu) == Groups(old(fgPerCpu))
      ensures forall c | 0 <= c < |fgPerCpu| :: |fgPerCpu[c]| == Want(cpus, nrFlowGroups, c)
      ensures Follows(old(fgPerCpu), moves, fgPerCpu) && MovedOnce(moves)
      ensures Total(moves) == Deficit(Sizes(old(fgPerCpu)), Wants(cpus, nrFlowGroups, |fgPerCpu|))
    {
      var want := Wants(cpus, nrFlowGroups, |fgPerCpu|);
      SharesAddUp(cpus, nrFlowGroups, |fgPerCpu|);
      FillAll(cpus, want, fgPerCpu);
      Finished(fgPerCpu, cpus, nrFlowGroups, want);
    }

    /** The outer loop. */
    method FillAll(cpus: seq<nat>, want: seq<nat>, ghost start: seq<set<nat>>)
      requires Inv(start, want, fgPerCpu, moves) && forall i | 0 <= i < |cpus| :: cpus[i] < |want|
      modifies this
      ensures Inv(start, want, fgPerCpu, moves)
      ensures AllFed(fgPerCpu, want, cpus)
    {
      for i := 0 to |cpus|
        invariant Inv(start, want, fgPerCpu, moves)
        invariant AllFed(fgPerCpu, want, cpus[..i])
      {
        ghost var before := fgPerCpu;
        FillTarget(cpus[i], want, start);
        OneMoreFed(before, fgPerCpu, want, cpus, i);
      }
      assert cpus[..|cpus|] == cpus;
    }
  }

  ghost predicate AllFed(fg: seq<set<nat>>, want: seq<nat>, cpus: seq<nat>) {
    forall i | 0 <= i < |cpus| :: Fed(fg, want, cpus[i])
  }

  lemma OneMoreFed(before: seq<set<nat>>, after: seq<set<nat>>, want: seq<nat>, cpus: seq<nat>, i: nat)
    requires i < |cpus| && AllFed(before, want, cpus[..i]) && Fed(after, want, cpus[i])
    requires forall c | Fed(before, want, c) :: Fed(after, want, c)
    ensures AllFed(after, want, cpus[..i + 1])
  {
    var some, more := cpus[..i], cpus[..i + 1];
    forall j | 0 <= j < |more|
      ensures Fed(after, want, more[j])
    {
      assert j < i ==> some[j] == more[j];
    }
  }

  /** When no chosen CPU is short, every CPU has its share. */
  lemma Finished(fg: seq<set<nat>>, cpus: seq<nat>, n: nat, want: seq<nat>)
    requires want == Wants(cpus, n, |fg|) && Sum(Sizes(fg)) == Sum(want)
    requires AllFed(fg, want, cpus)
    ensures Deficit(Sizes(fg), want) == 0
    ensures forall c | 0 <= c < |fg| :: |fg[c]| == Want(cpus, n, c)
  {
    forall c | 0 <= c < |want|
      ensures want[c] <= Sizes(fg)[c]
    {
      if c in cpus {
        assert Fed(fg, want, cpus[IndexOf(cpus, c)]);
      }
    }
    NoDeficit(Sizes(fg), want);
    forall c | 0 <= c < |fg|
      ensures |fg[c]| == Want(cpus, n, c)
    {
      AllSatisfied(Sizes(fg), want, c);
      assert Sizes(fg)[c] == want[c];
    }
  }
}
