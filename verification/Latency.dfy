/** Runs of the whole system under its scheduler: every request is answered in bounded time. */
module Latency {
  import opened Processes
  import opened Rendezvous
  import opened Layers
  import opened Response
  import S = Scheduler

  /** `sched` says who runs, `left` what the servers may still ask for. */
  datatype Machine = Machine(sys: System, left: seq<nat>, sched: S.Sched)

  datatype Turn = Clock | Act(act: Action)

  /** A process is ready for the scheduler exactly when it is not blocked. */
  ghost predicate Agrees(m: Machine) {
    |m.sched.ready| == |m.sys.ipc.cell| &&
    forall p :: 0 <= p < |m.sched.ready| ==> (m.sched.ready[p] <==> m.sys.ipc.cell[p].status == Ready)
  }

  ghost predicate Sound(m: Machine, k: nat) {
    Good(m.sys, m.left, k) && S.Balanced(m.sched) && Agrees(m)
  }

  /** The clock ticks, the current process takes an action, or the disk interrupts. */
  ghost predicate MachineStep(m: Machine, k: nat, turn: Turn, e: S.Event, m1: Machine) {
    S.Step(m.sched, e, m1.sched) && Agrees(m1) &&
    match turn
    case Clock => e == S.Tick && m1.sys == m.sys && m1.left == m.left
    case Act(act) =>
      e != S.Tick && Steps(m.sys, m.left, k, act, m1.sys, m1.left) &&
      (Actor(act) == m.sched.current || (act.Call? && act.e.Interrupt?))
  }

  /** `ms[i]` is the state before `turns[i]`, which the scheduler sees as `es[i]`. */
  datatype History = History(ms: seq<Machine>, turns: seq<Turn>, es: seq<S.Event>)

  ghost predicate StepAt(h: History, k: nat, i: nat)
    requires |h.ms| == |h.turns| + 1 == |h.es| + 1 && i < |h.turns|
  {
    MachineStep(h.ms[i], k, h.turns[i], h.es[i], h.ms[i + 1])
  }

  ghost predicate IsHistory(h: History, k: nat) {
    |h.ms| == |h.turns| + 1 == |h.es| + 1 && Sound(h.ms[0], k) && forall i :: 0 <= i < |h.turns| ==> StepAt(h, k, i)
  }

  function Scheds(h: History): (ss: seq<S.Sched>)
    ensures |ss| == |h.ms|
  {
    seq(|h.ms|, i requires 0 <= i < |h.ms| => h.ms[i].sched)
  }

  lemma StepIsSound(m: Machine, k: nat, turn: Turn, e: S.Event, m1: Machine)
    requires Sound(m, k) && MachineStep(m, k, turn, e, m1)
    ensures Sound(m1, k) && |m1.sys.pc| == |m.sys.pc| && m1.sched.priority == m.sched.priority
    ensures turn.Act? ==> Stepped(m.sys, m.left, k, turn.act, m1.sys, m1.left)
  {
    S.StepKeepsBalance(m.sched, e, m1.sched);
    if turn.Act? {
      Views(m.sys, turn.act, m1.sys);
      BudgetKeeps(m.sys, m.left, k, turn.act, m1.sys, m1.left);
    }
  }

  lemma {:induction false} HistoryIsSound(h: History, k: nat, i: nat)
    requires IsHistory(h, k) && i <= |h.turns|
    ensures Sound(h.ms[i], k) && |h.ms[i].sys.pc| == |h.ms[0].sys.pc|
    ensures h.ms[i].sched.priority == h.ms[0].sched.priority
  {
    if i > 0 {
      HistoryIsSound(h, k, i - 1);
      assert StepAt(h, k, i - 1);
      StepIsSound(h.ms[i - 1], k, h.turns[i - 1], h.es[i - 1], h.ms[i]);
    }
  }

  /** Seen by the scheduler alone. */
  lemma SchedulerRun(h: History, k: nat)
    requires IsHistory(h, k)
    ensures S.IsRun(Scheds(h), h.es)
  {
    forall i | 0 <= i < |h.es| ensures S.StepAt(Scheds(h), h.es, i) {
      assert StepAt(h, k, i);
    }
  }

  // ---------------------------------------------------------------- what is asked of programs and of the disk

  /** The turn is an action of `p`, other than to store something. */
  predicate IsMove(turn: Turn, p: nat) {
    turn.Act? && Actor(turn.act) == p && !(turn.act.Call? && turn.act.e.Store?)
  }

  /** From `i` to `j` process `p` is ready, a server or in a library call, and does nothing. */
  ghost predicate Computes(h: History, p: nat, i: nat, j: nat)
    requires i <= j < |h.ms| == |h.turns| + 1
  {
    (forall l :: i <= l <= j ==> p < |h.ms[l].sys.pc| == |h.ms[l].sys.ipc.cell| && Engaged(h.ms[l].sys, p)) &&
    forall l :: i <= l < j ==> !IsMove(h.turns[l], p)
  }

  /** Servers and library calls take their next step before they have used up a full slice. */
  ghost predicate Prompt(h: History, k: nat)
    requires IsHistory(h, k)
  {
    forall p, i, j :: 0 <= i <= j < |h.ms| && 0 <= p < |h.ms[0].sched.priority| && Computes(h, p, i, j) ==>
      S.Charged(Scheds(h), h.es, p, i, j) < h.ms[0].sched.priority[p]
  }

  /** The disk has been asked to interrupt, and has not done so, from `i` to `j`. */
  ghost predicate Armed(h: History, i: nat, j: nat)
    requires i <= j < |h.ms|
  {
    forall l :: i <= l <= j ==> h.ms[l].sys.armed
  }

  /** The disk interrupts within `d` ticks. */
  ghost predicate DiskAnswers(h: History, k: nat, d: nat)
    requires IsHistory(h, k)
  {
    forall i, j :: 0 <= i <= j < |h.ms| && Armed(h, i, j) ==> S.Ticks(h.es, i, j) <= d
  }

  // ---------------------------------------------------------------- somebody moves soon

  /** The time in which the process that is waited for takes a step. */
  ghost function Window(h: History, d: nat): (t: nat)
    requires h.ms != []
    ensures t >= d && t >= 2 * S.Sum(h.ms[0].sched.priority) + 1
  {
    var t := 2 * S.Sum(h.ms[0].sched.priority) + 1;
    if t >= d then t else d
  }

  /** From `i` to `l` process `p` waits for `q`. */
  ghost predicate WaitsFor(h: History, k: nat, p: nat, q: nat, i: nat, l: nat)
    requires i <= l < |h.ms|
  {
    forall m :: i <= m <= l ==> WaitsAt(h, k, p, q, m)
  }

  ghost predicate WaitsAt(h: History, k: nat, p: nat, q: nat, m: nat)
    requires m < |h.ms|
  {
    var w := h.ms[m].sys;
    Sound(h.ms[m], k) && p < |w.pc| && !Idle(w, p) && Mover(w, p) == q && (Engaged(w, q) || AwaitsDisk(w, q)) &&
    (WaitsOn(w, p) != NIL || Engaged(w, p) || AwaitsDisk(w, p))
  }

  lemma StillWaits(h: History, k: nat, p: nat, q: nat, m: nat)
    requires IsHistory(h, k) && m < |h.turns| && WaitsAt(h, k, p, q, m) && !IsMove(h.turns[m], q)
    ensures WaitsAt(h, k, p, q, m + 1)
  {
    assert StepAt(h, k, m);
    StepIsSound(h.ms[m], k, h.turns[m], h.es[m], h.ms[m + 1]);
    if h.turns[m].Act? {
      var w, v := h.ms[m].sys, h.ms[m + 1].sys;
      MoverStays(w, h.turns[m].act, v, p);
      assert Fits(v, p);
      MoverIsEngaged(v, p);
    }
  }

  ghost predicate NoMove(h: History, q: nat, i: nat, l: nat)
    requires i <= l <= |h.turns|
  {
    forall m :: i <= m < l ==> !IsMove(h.turns[m], q)
  }

  /** A process that does not move keeps its status. */
  lemma StatusStep(h: History, k: nat, p: nat, q: nat, m: nat)
    requires IsHistory(h, k) && m < |h.turns| && WaitsAt(h, k, p, q, m) && !IsMove(h.turns[m], q)
    ensures q < |h.ms[m].sys.pc| == |h.ms[m].sys.ipc.cell| == |h.ms[m + 1].sys.ipc.cell|
    ensures h.ms[m + 1].sys.ipc.cell[q].status == h.ms[m].sys.ipc.cell[q].status
  {
    assert StepAt(h, k, m);
    StepIsSound(h.ms[m], k, h.turns[m], h.es[m], h.ms[m + 1]);
    if h.turns[m].Act? {
      MoverStays(h.ms[m].sys, h.turns[m].act, h.ms[m + 1].sys, q);
    }
  }

  lemma {:induction false} StatusStays(h: History, k: nat, p: nat, q: nat, i: nat, l: nat)
    requires IsHistory(h, k) && i <= l <= |h.turns| && WaitsFor(h, k, p, q, i, l) && NoMove(h, q, i, l)
    ensures WaitsAt(h, k, p, q, i) && WaitsAt(h, k, p, q, l)
    ensures h.ms[l].sys.ipc.cell[q].status == h.ms[i].sys.ipc.cell[q].status
    decreases l
  {
    assert WaitsAt(h, k, p, q, i) && WaitsAt(h, k, p, q, l);
    if i < l {
      assert WaitsAt(h, k, p, q, l - 1);
      StatusStays(h, k, p, q, i, l - 1);
      StatusStep(h, k, p, q, l - 1);
    }
  }

  /** Nobody lets the others wait for more than a window. */
  lemma WaitIsShort(h: History, k: nat, d: nat, p: nat, q: nat, i: nat, j: nat)
    requires IsHistory(h, k) && Prompt(h, k) && DiskAnswers(h, k, d)
    requires i <= j <= |h.turns| && WaitsFor(h, k, p, q, i, j) && NoMove(h, q, i, j)
    ensures S.Ticks(h.es, i, j) <= Window(h, d)
  {
    assert WaitsAt(h, k, p, q, i);
    forall l | i <= l <= j
      ensures WaitsAt(h, k, p, q, l) && h.ms[l].sys.ipc.cell[q].status == h.ms[i].sys.ipc.cell[q].status
    {
      StatusStays(h, k, p, q, i, l);
    }
    if h.ms[i].sys.ipc.cell[q].status == Ready {
      ReadyIsShort(h, k, p, q, i, j);
    } else {
      assert Armed(h, i, j);
    }
  }

  lemma ReadyIsShort(h: History, k: nat, p: nat, q: nat, i: nat, j: nat)
    requires IsHistory(h, k) && Prompt(h, k) && i <= j <= |h.turns|
    requires forall l :: i <= l <= j ==> WaitsAt(h, k, p, q, l) && h.ms[l].sys.ipc.cell[q].status == Ready
    requires NoMove(h, q, i, j)
    ensures S.Ticks(h.es, i, j) <= 2 * S.Sum(h.ms[0].sched.priority) + 1
  {
    var ss := Scheds(h);
    SchedulerRun(h, k);
    HistoryIsSound(h, k, i);
    assert WaitsAt(h, k, p, q, i);
    forall l | i <= l <= j ensures S.ReadyAt(ss, l, q) {
      assert WaitsAt(h, k, p, q, l);
    }
    assert Computes(h, q, i, j) by {
      forall l | i <= l <= j ensures q < |h.ms[l].sys.pc| == |h.ms[l].sys.ipc.cell| && Engaged(h.ms[l].sys, q) {
        assert WaitsAt(h, k, p, q, l);
      }
    }
    if S.Ticks(h.es, i, j) > 2 * S.Sum(ss[0].priority) + 1 {
      S.NoStarvation(ss, h.es, i, j, q);
    }
  }

  lemma WaitsOnward(h: History, k: nat, p: nat, q: nat, i: nat, l: nat)
    requires IsHistory(h, k) && i <= l < |h.turns| && WaitsFor(h, k, p, q, i, l) && NoMove(h, q, i, l)
    requires !IsMove(h.turns[l], q)
    ensures WaitsFor(h, k, p, q, i, l + 1) && NoMove(h, q, i, l + 1)
  {
    assert WaitsAt(h, k, p, q, l);
    StillWaits(h, k, p, q, l);
    forall m | i <= m <= l + 1 ensures WaitsAt(h, k, p, q, m) {
    }
  }

  /** Before the window is over, whoever is waited for has moved. */
  lemma MovesSoon(h: History, k: nat, d: nat, p: nat, q: nat, i: nat, j: nat) returns (l: nat)
    requires IsHistory(h, k) && Prompt(h, k) && DiskAnswers(h, k, d) && i <= j <= |h.turns|
    requires WaitsAt(h, k, p, q, i) && S.Ticks(h.es, i, j) > Window(h, d)
    ensures i <= l < j && WaitsFor(h, k, p, q, i, l) && NoMove(h, q, i, l) && IsMove(h.turns[l], q)
    ensures S.Ticks(h.es, i, l + 1) <= Window(h, d)
  {
    l := i;
    WaitIsShort(h, k, d, p, q, i, i);
    while l < j && !IsMove(h.turns[l], q)
      invariant i <= l <= j && WaitsFor(h, k, p, q, i, l) && NoMove(h, q, i, l)
      decreases j - l
    {
      WaitsOnward(h, k, p, q, i, l);
      l := l + 1;
    }
    WaitIsShort(h, k, d, p, q, i, l);
    assert StepAt(h, k, l);
  }

  // ---------------------------------------------------------------- every request is answered

  /** What still has to happen before `p` is done. */
  ghost function Ahead(m: Machine, k: nat, p: nat): nat
    requires Sound(m, k) && p < |m.sys.pc|
  {
    Pending(m.sys, m.left, k, p)
  }

  /** A turn does not put off the answer, and a move by the process waited for brings it closer. */
  lemma TurnHelps(h: History, k: nat, p: nat, i: nat)
    requires IsHistory(h, k) && i < |h.turns| && Sound(h.ms[i], k) && p < |h.ms[i].sys.pc| && InRequest(h.ms[i].sys, p)
    ensures Sound(h.ms[i + 1], k) && |h.ms[i + 1].sys.pc| == |h.ms[i].sys.pc|
    ensures !Idle(h.ms[i].sys, p)
    ensures Ahead(h.ms[i + 1], k, p) + (if IsMove(h.turns[i], Mover(h.ms[i].sys, p)) then 1 else 0) <=
            Ahead(h.ms[i], k, p)
  {
    assert StepAt(h, k, i);
    StepIsSound(h.ms[i], k, h.turns[i], h.es[i], h.ms[i + 1]);
    var w := h.ms[i].sys;
    assert Fits(w, p) && Fits(w, TASK_HD);
    PendingPositive(w, h.ms[i].left, k, p);
    if h.turns[i].Act? {
      PendingDown(w, h.ms[i].left, k, h.turns[i].act, h.ms[i + 1].sys, h.ms[i + 1].left, p);
    }
  }

  /** As long as the process waited for does not move, `p` is in its request. */
  lemma {:induction false} RequestStays(h: History, k: nat, p: nat, q: nat, i: nat, l: nat)
    requires IsHistory(h, k) && i <= l <= |h.turns| && WaitsFor(h, k, p, q, i, l) && NoMove(h, q, i, l)
    requires Sound(h.ms[i], k) && p < |h.ms[i].sys.pc| && InRequest(h.ms[i].sys, p)
    ensures Sound(h.ms[l], k) && p < |h.ms[l].sys.pc| == |h.ms[i].sys.pc| && InRequest(h.ms[l].sys, p)
    ensures Ahead(h.ms[l], k, p) <= Ahead(h.ms[i], k, p)
    decreases l
  {
    if i < l {
      assert WaitsAt(h, k, p, q, l - 1);
      RequestStays(h, k, p, q, i, l - 1);
      TurnHelps(h, k, p, l - 1);
      assert StepAt(h, k, l - 1);
      StepIsSound(h.ms[l - 1], k, h.turns[l - 1], h.es[l - 1], h.ms[l]);
      if h.turns[l - 1].Act? {
        MoverStays(h.ms[l - 1].sys, h.turns[l - 1].act, h.ms[l].sys, p);
      }
    }
  }

  lemma WaitsNow(h: History, k: nat, p: nat, i: nat) returns (q: nat)
    requires i < |h.ms| && Sound(h.ms[i], k) && p < |h.ms[i].sys.pc| && InRequest(h.ms[i].sys, p)
    ensures WaitsAt(h, k, p, q, i)
  {
    var w := h.ms[i].sys;
    assert Fits(w, p);
    MoverIsEngaged(w, p);
    q := Mover(w, p);
  }

  /** Within a window the request is answered, or something has been done for it. */
  lemma Closer(h: History, k: nat, d: nat, p: nat, i: nat, j: nat) returns (l: nat)
    requires IsHistory(h, k) && Prompt(h, k) && DiskAnswers(h, k, d) && i <= j <= |h.turns|
    requires Sound(h.ms[i], k) && p < |h.ms[i].sys.pc| && InRequest(h.ms[i].sys, p)
    requires S.Ticks(h.es, i, j) > Window(h, d)
    ensures i < l <= j && S.Ticks(h.es, i, l) <= Window(h, d)
    ensures Sound(h.ms[l], k) && |h.ms[l].sys.pc| == |h.ms[i].sys.pc| && Ahead(h.ms[l], k, p) < Ahead(h.ms[i], k, p)
  {
    var q := WaitsNow(h, k, p, i);
    l := MovesSoon(h, k, d, p, q, i, j);
    assert WaitsAt(h, k, p, q, l);
    RequestStays(h, k, p, q, i, l);
    TurnHelps(h, k, p, l);
    l := l + 1;
  }

  lemma {:induction false} Answered(h: History, k: nat, d: nat, p: nat, i: nat, j: nat) returns (l: nat)
    requires IsHistory(h, k) && Prompt(h, k) && DiskAnswers(h, k, d) && i <= j <= |h.turns|
    requires Sound(h.ms[i], k) && p < |h.ms[i].sys.pc| && InRequest(h.ms[i].sys, p)
    requires S.Ticks(h.es, i, j) > Times(Ahead(h.ms[i], k, p), Window(h, d))
    ensures i < l <= j && p < |h.ms[l].sys.pc| == |h.ms[l].sys.ipc.cell| && !InRequest(h.ms[l].sys, p)
    decreases Ahead(h.ms[i], k, p)
  {
    var t := Window(h, d);
    assert Fits(h.ms[i].sys, p);
    PendingPositive(h.ms[i].sys, h.ms[i].left, k, p);
    assert Times(Ahead(h.ms[i], k, p), t) == t + Times(Ahead(h.ms[i], k, p) - 1, t);
    l := Closer(h, k, d, p, i, j);
    if InRequest(h.ms[l].sys, p) {
      TimesMono(Ahead(h.ms[l], k, p), Ahead(h.ms[i], k, p) - 1, t, t);
      S.CountsAdd(Scheds(h), h.es, p, i, l, j);
      l := Answered(h, k, d, p, l, j);
    }
  }

  /** Over every run under the scheduler: a request made by any process, to any server and through
      any number of others, has its answer before the clock has ticked OpCost times the window. */
  lemma EveryRequestIsAnswered(h: History, k: nat, d: nat, p: nat, i: nat, j: nat) returns (l: nat)
    requires IsHistory(h, k) && Prompt(h, k) && DiskAnswers(h, k, d) && i <= j <= |h.turns|
    requires p < |h.ms[0].sys.pc| && |h.ms[i].sys.pc| == |h.ms[i].sys.ipc.cell| == |h.ms[0].sys.pc|
    requires InRequest(h.ms[i].sys, p)
    requires S.Ticks(h.es, i, j) > OpCost(|h.ms[0].sys.pc|, k, Rank(p)) * Window(h, d)
    ensures i < l <= j && p < |h.ms[l].sys.pc| == |h.ms[l].sys.ipc.cell| && !InRequest(h.ms[l].sys, p)
  {
    HistoryIsSound(h, k, i);
    PendingBound(h.ms[i].sys, h.ms[i].left, k, p);
    var c, t := OpCost(|h.ms[0].sys.pc|, k, Rank(p)), Window(h, d);
    TimesMono(Ahead(h.ms[i], k, p), c, t, t);
    TimesIs(c, t);
    l := Answered(h, k, d, p, i, j);
  }

  /** Runs may start at boot. */
  lemma BootIsSound(n: nat, left: seq<nat>, k: nat, sched: S.Sched)
    requires n > TASK_FS && |left| == n && (forall t :: 0 <= t < n ==> left[t] <= k)
    requires S.Balanced(sched) && |sched.ready| == n && forall p :: 0 <= p < n ==> sched.ready[p]
    ensures Sound(Machine(Boot(n), left, sched), k)
  {
    BootIsLayered(n);
    forall t | 0 <= t < n ensures WithinBudget(Boot(n), left, k, t) {
    }
  }
}
