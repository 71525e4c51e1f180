/** Tick accounting: what clock, blocking and waking do to time slices, and how the processor is shared over runs. */
module Scheduler {

  datatype Sched = Sched(current: nat, ticks: seq<int>, priority: seq<int>, ready: seq<bool>)

  /** Clock interrupt; the current process blocks; a blocked process becomes ready; or a kernel
      entry after which the same processes are ready as before. */
  datatype Event = Tick | Block | Wake(p: nat) | Stay

  /** Whether the kernel entry calls `schedule`. */
  predicate Schedules(e: Event) {
    e.Tick? || e.Block?
  }

  ghost predicate Shape(s: Sched) {
    |s.ticks| == |s.priority| == |s.ready| && s.current < |s.ticks|
  }

  /** What holds between any two kernel entries. */
  ghost predicate Balanced(s: Sched) {
    Shape(s) &&
    (forall p :: 0 <= p < |s.ticks| ==> 0 <= s.ticks[p] <= s.priority[p]) &&
    s.ready[s.current] && s.ticks[s.current] > 0
  }

  ghost predicate Exhausted(ticks: seq<int>, ready: seq<bool>)
    requires |ticks| == |ready|
  {
    forall p :: 0 <= p < |ticks| && ready[p] ==> ticks[p] <= 0
  }

  /** The lowest-numbered ready process among those with the most ticks left. */
  ghost predicate Best(ticks: seq<int>, ready: seq<bool>, c: nat)
    requires |ticks| == |ready|
  {
    c < |ticks| && ready[c] && ticks[c] > 0 &&
    forall p :: 0 <= p < |ticks| && ready[p] ==> ticks[p] <= ticks[c] && (p < c ==> ticks[p] < ticks[c])
  }

  /** The time slices and ready set after the part of `e` that precedes `schedule`. */
  function Charge(s: Sched, e: Event): (r: (seq<int>, seq<bool>))
    requires Shape(s)
    requires e.Wake? ==> e.p < |s.ready|
  {
    match e
    case Tick => (s.ticks[s.current := s.ticks[s.current] - 1], s.ready)
    case Block => (s.ticks, s.ready[s.current := false])
    case Wake(p) => (s.ticks, s.ready[p := true])
    case Stay => (s.ticks, s.ready)
  }

  function Refill(ticks: seq<int>, priority: seq<int>, ready: seq<bool>): (r: seq<int>)
    requires |ticks| == |priority| == |ready|
  {
    seq(|ticks|, p requires 0 <= p < |ticks| => if ready[p] then priority[p] else ticks[p])
  }

  /** `schedule` returns at all only if some ready process has, or can be given, a tick. */
  ghost predicate CanSchedule(ticks: seq<int>, priority: seq<int>, ready: seq<bool>)
    requires |ticks| == |priority| == |ready|
  {
    exists p :: 0 <= p < |ticks| && ready[p] && (ticks[p] > 0 || priority[p] > 0)
  }

  /** The state in which `schedule`, entered with `ticks` and `ready`, leaves the table. */
  ghost predicate Scheduled(ticks: seq<int>, priority: seq<int>, ready: seq<bool>, t: Sched)
    requires |ticks| == |priority| == |ready|
  {
    t.priority == priority && t.ready == ready &&
    t.ticks == (if Exhausted(ticks, ready) then Refill(ticks, priority, ready) else ticks) &&
    Best(t.ticks, ready, t.current)
  }

  ghost predicate Enabled(s: Sched, e: Event)
    requires Shape(s)
  {
    match e
    case Tick => true
    case Block => exists p :: 0 <= p < |s.ready| && p != s.current && s.ready[p] && s.priority[p] > 0
    case Wake(p) => p < |s.ready| && !s.ready[p]
    case Stay => true
  }

  ghost predicate Step(s: Sched, e: Event, t: Sched) {
    Shape(s) && Enabled(s, e) &&
    var (ticks, ready) := Charge(s, e);
    if Schedules(e) then Scheduled(ticks, s.priority, ready, t) else t == s.(ready := ready)
  }

  /** A step in which every ready process had used up its slice, so that slices were refilled. */
  ghost predicate Refills(s: Sched, e: Event) {
    Shape(s) && Schedules(e) && var (ticks, ready) := Charge(s, e); Exhausted(ticks, ready)
  }

  /** Without a ready process that has ticks or a priority, refilling for ever finds nobody. */
  lemma ScheduleLoops(ticks: seq<int>, priority: seq<int>, ready: seq<bool>, c: nat)
    requires |ticks| == |priority| == |ready|
    ensures !CanSchedule(ticks, priority, ready) <==>
            Exhausted(ticks, ready) && Exhausted(Refill(ticks, priority, ready), ready)
    ensures Exhausted(ticks, ready) ==>
            Refill(Refill(ticks, priority, ready), priority, ready) == Refill(ticks, priority, ready)
    ensures !CanSchedule(ticks, priority, ready) ==>
            !Best(ticks, ready, c) && !Best(Refill(ticks, priority, ready), ready, c)
  {
  }

  /** The choice `schedule` makes is determined by the slices and the ready set. */
  lemma BestIsUnique(ticks: seq<int>, ready: seq<bool>, c: nat, d: nat)
    requires |ticks| == |ready| && Best(ticks, ready, c) && Best(ticks, ready, d)
    ensures c == d
  {
  }

  lemma StepKeepsBalance(s: Sched, e: Event, t: Sched)
    requires Balanced(s) && Step(s, e, t)
    ensures Balanced(t) && t.priority == s.priority
  {
  }

  /** What one kernel entry does to everybody's ticks: the tick is charged to the running process;
      if no ready process is left with any, ready processes get their priority and blocked ones keep
      what they have; and the lowest-numbered of the ready processes with most ticks runs next. */
  lemma StepSpelledOut(s: Sched, e: Event, t: Sched)
    requires Balanced(s) && Step(s, e, t)
    ensures |t.ticks| == |s.ticks| == |t.ready| && t.priority == s.priority
    ensures forall p :: 0 <= p < |s.ready| ==>
      (t.ready[p] <==> (s.ready[p] && !(e == Block && p == s.current)) || e == Wake(p))
    ensures var spent := seq(|s.ticks|, p requires 0 <= p < |s.ticks| =>
                             s.ticks[p] - if e == Tick && p == s.current then 1 else 0);
            var over := (e == Tick || e == Block) && forall p :: 0 <= p < |spent| && t.ready[p] ==> spent[p] <= 0;
            forall p :: 0 <= p < |s.ticks| ==>
              t.ticks[p] == if over && t.ready[p] then s.priority[p] else spent[p]
    ensures if e == Tick || e == Block then
              t.current < |s.ticks| && t.ready[t.current] && t.ticks[t.current] > 0 &&
              (forall p :: 0 <= p < |s.ticks| && t.ready[p] ==> t.ticks[p] <= t.ticks[t.current]) &&
              (forall p :: 0 <= p < t.current && t.ready[p] ==> t.ticks[p] < t.ticks[t.current])
            else t.current == s.current
  {
  }

  /** Nobody gains or loses ticks while blocked. */
  lemma BlockedKeepTicks(s: Sched, e: Event, t: Sched, p: nat)
    requires Balanced(s) && Step(s, e, t) && p < |t.ready| && !t.ready[p]
    ensures p < |t.ticks| && t.ticks[p] == s.ticks[p]
  {
  }

  // ---------------------------------------------------------------- runs

  /** `ss[i]` is the state before event `es[i]`. */
  ghost predicate IsRun(ss: seq<Sched>, es: seq<Event>) {
    |ss| == |es| + 1 && Balanced(ss[0]) && forall i :: 0 <= i < |es| ==> StepAt(ss, es, i)
  }

  ghost predicate StepAt(ss: seq<Sched>, es: seq<Event>, i: nat)
    requires |ss| == |es| + 1 && i < |es|
  {
    Step(ss[i], es[i], ss[i + 1])
  }

  lemma {:induction false} RunBalanced(ss: seq<Sched>, es: seq<Event>, i: nat)
    requires IsRun(ss, es) && i <= |es|
    ensures Balanced(ss[i]) && ss[i].priority == ss[0].priority
  {
    if i > 0 {
      RunBalanced(ss, es, i - 1);
      assert StepAt(ss, es, i - 1);
      StepKeepsBalance(ss[i - 1], es[i - 1], ss[i]);
    }
  }

  /** Clock ticks charged to `p` by the events from `i` up to `j`. */
  ghost function Charged(ss: seq<Sched>, es: seq<Event>, p: nat, i: nat, j: nat): (n: nat)
    requires i <= j <= |es| <= |ss|
    decreases j
  {
    if i == j then 0
    else Charged(ss, es, p, i, j - 1) + if es[j - 1] == Tick && ss[j - 1].current == p then 1 else 0
  }

  function Ticks(es: seq<Event>, i: nat, j: nat): (n: nat)
    requires i <= j <= |es|
    decreases j
  {
    if i == j then 0 else Ticks(es, i, j - 1) + if es[j - 1] == Tick then 1 else 0
  }

  function Sum(xs: seq<int>): int {
    if xs == [] then 0 else Sum(xs[..|xs| - 1]) + xs[|xs| - 1]
  }

  lemma {:induction false} SumUpdate(xs: seq<int>, i: nat, d: int)
    requires i < |xs|
    ensures Sum(xs[i := xs[i] + d]) == Sum(xs) + d
  {
    var n := |xs| - 1;
    var ys := xs[i := xs[i] + d];
    if i < n {
      SumUpdate(xs[..n], i, d);
      assert ys[..n] == xs[..n][i := xs[..n][i] + d];
    } else {
      assert ys[..n] == xs[..n];
    }
  }

  lemma {:induction false} SumBounded(xs: seq<int>, ys: seq<int>)
    requires |xs| == |ys| && forall i :: 0 <= i < |xs| ==> 0 <= xs[i] <= ys[i]
    ensures 0 <= Sum(xs) <= Sum(ys)
  {
    if xs != [] {
      SumBounded(xs[..|xs| - 1], ys[..|ys| - 1]);
    }
  }

  ghost predicate NoRefill(ss: seq<Sched>, es: seq<Event>, i: nat, j: nat)
    requires IsRun(ss, es) && i <= j <= |es|
  {
    forall k :: i <= k < j ==> !Refills(ss[k], es[k])
  }

  lemma StepConserves(s: Sched, e: Event, t: Sched)
    requires Balanced(s) && Step(s, e, t) && !Refills(s, e)
    ensures |s.ticks| == |t.ticks|
    ensures forall p :: 0 <= p < |s.ticks| ==>
      s.ticks[p] == t.ticks[p] + if e == Tick && s.current == p then 1 else 0
    ensures Sum(s.ticks) == Sum(t.ticks) + if e == Tick then 1 else 0
  {
    if e == Tick {
      SumUpdate(s.ticks, s.current, -1);
      assert t.ticks == s.ticks[s.current := s.ticks[s.current] + -1];
    }
  }

  /** Between refills nobody's time is lost or invented: what a process has lost is
      exactly what it has been charged, whoever blocked or woke meanwhile. */
  lemma {:induction false} TimeIsConserved(ss: seq<Sched>, es: seq<Event>, i: nat, j: nat)
    requires IsRun(ss, es) && i <= j <= |es| && NoRefill(ss, es, i, j)
    ensures |ss[i].ticks| == |ss[j].ticks|
    ensures forall p :: 0 <= p < |ss[i].ticks| ==> ss[i].ticks[p] == ss[j].ticks[p] + Charged(ss, es, p, i, j)
    ensures Sum(ss[i].ticks) == Sum(ss[j].ticks) + Ticks(es, i, j)
    decreases j
  {
    if i < j {
      TimeIsConserved(ss, es, i, j - 1);
      RunBalanced(ss, es, j - 1);
      assert StepAt(ss, es, j - 1);
      StepConserves(ss[j - 1], es[j - 1], ss[j]);
    }
  }

  ghost predicate ReadyAt(ss: seq<Sched>, i: nat, p: nat)
    requires i < |ss|
  {
    p < |ss[i].ready| && ss[i].ready[p]
  }

  /** An epoch runs from the state `i` just after a refill through the event `k` that refills next. */
  ghost predicate IsEpoch(ss: seq<Sched>, es: seq<Event>, i: nat, k: nat)
    requires IsRun(ss, es)
  {
    0 < i <= k < |es| && Refills(ss[i - 1], es[i - 1]) && NoRefill(ss, es, i, k) && Refills(ss[k], es[k])
  }

  /** A process that is ready at both ends of an epoch is charged exactly its priority in it. */
  lemma ProportionalShare(ss: seq<Sched>, es: seq<Event>, i: nat, k: nat, p: nat)
    requires IsRun(ss, es) && IsEpoch(ss, es, i, k) && p < |ss[0].priority|
    requires ReadyAt(ss, i, p) && ReadyAt(ss, k + 1, p)
    ensures Charged(ss, es, p, i, k + 1) == ss[0].priority[p]
  {
    RunBalanced(ss, es, i - 1);
    RunBalanced(ss, es, k);
    assert StepAt(ss, es, i - 1) && StepAt(ss, es, k);
    TimeIsConserved(ss, es, i, k);
  }

  /** Any stretch of a run with more clock ticks than the sum of all priorities contains a
      refill, so an epoch is never longer than that sum. */
  lemma EpochIsBounded(ss: seq<Sched>, es: seq<Event>, i: nat, j: nat)
    requires IsRun(ss, es) && i <= j <= |es| && NoRefill(ss, es, i, j)
    ensures Ticks(es, i, j) <= Sum(ss[0].priority)
  {
    RunBalanced(ss, es, i);
    RunBalanced(ss, es, j);
    TimeIsConserved(ss, es, i, j);
    SumBounded(ss[i].ticks, ss[i].priority);
    SumBounded(ss[j].ticks, ss[j].priority);
  }

  lemma {:induction false} CountsAdd(ss: seq<Sched>, es: seq<Event>, p: nat, i: nat, j: nat, k: nat)
    requires i <= j <= k <= |es| <= |ss|
    ensures Ticks(es, i, k) == Ticks(es, i, j) + Ticks(es, j, k)
    ensures Charged(ss, es, p, i, k) == Charged(ss, es, p, i, j) + Charged(ss, es, p, j, k)
    decreases k
  {
    if j < k {
      CountsAdd(ss, es, p, i, j, k - 1);
    }
  }

  /** The first refill at or after `i`, found before the clock has ticked too often. */
  lemma FirstRefill(ss: seq<Sched>, es: seq<Event>, i: nat, j: nat) returns (k: nat)
    requires IsRun(ss, es) && i <= j <= |es| && Ticks(es, i, j) > Sum(ss[0].priority)
    ensures i <= k < j && NoRefill(ss, es, i, k) && Refills(ss[k], es[k])
    ensures Ticks(es, i, k) <= Sum(ss[0].priority)
  {
    RunBalanced(ss, es, 0);
    SumBounded(ss[0].ticks, ss[0].priority);
    k := i;
    while !Refills(ss[k], es[k])
      invariant i <= k < j && NoRefill(ss, es, i, k)
      decreases j - k
    {
      EpochIsBounded(ss, es, i, k + 1);
      k := k + 1;
    }
    EpochIsBounded(ss, es, i, k);
  }

  /** No process that stays ready starves: within any stretch of a little more than twice
      the sum of all priorities it is charged its full priority, whatever the others do. */
  lemma NoStarvation(ss: seq<Sched>, es: seq<Event>, i: nat, j: nat, p: nat)
    requires IsRun(ss, es) && i <= j <= |es| && p < |ss[0].priority|
    requires forall k :: i <= k <= j ==> ReadyAt(ss, k, p)
    requires Ticks(es, i, j) > 2 * Sum(ss[0].priority) + 1
    ensures Charged(ss, es, p, i, j) >= ss[0].priority[p]
  {
    var k := FirstRefill(ss, es, i, j);
    CountsAdd(ss, es, p, i, k, j);
    CountsAdd(ss, es, p, k, k + 1, j);
    var l := FirstRefill(ss, es, k + 1, j);
    ProportionalShare(ss, es, k + 1, l, p);
    CountsAdd(ss, es, p, k + 1, l + 1, j);
  }
}
