/** The kernel's process table in its own shape: flags, wait targets and intrusive lists
    of blocked senders, updated in place by the IPC calls and the clock. */
module Kernel {
  import opened Processes
  import R = Rendezvous
  import S = Scheduler

  const NR_PROCS := 3
  const NR_TASKS := 4
  const TASK_TTY := 3

  const SEND := 1
  const RECEIVE := 2

  /** How a kernel entry ends.  Halted stands for `panic` and for a failed assertion. */
  datatype Outcome = Returned | Blocked | Halted

  // ---------------------------------------------------------------- what the table represents

  ghost predicate Shows(p: Process, c: R.Cell) {
    p.msg == c.msg && p.hasInt == c.hasInt && p.mem == c.mem &&
    match c.status
    case Ready => p.flags == {} && p.recvFrom == NO_TASK && p.sendTo == NO_TASK
    case Sending(d) => p.flags == {SENDING} && p.recvFrom == NO_TASK && p.sendTo == d
    case Receiving(f) => p.flags == {RECEIVING} && p.recvFrom == f && p.sendTo == NO_TASK
  }

  /** The list that starts at `head` and follows `next` is exactly `q`, and it ends. */
  ghost predicate Linked(ps: seq<Process>, head: int, q: seq<nat>) {
    head == (if q == [] then NIL else q[0]) &&
    (forall i :: 0 <= i < |q| ==> q[i] < |ps|) &&
    (forall i, j :: 0 <= i < j < |q| && j == i + 1 ==> ps[q[i]].next == q[j]) &&
    (q != [] ==> ps[q[|q| - 1]].next == NIL)
  }

  ghost predicate Represents(ps: seq<Process>, a: R.Ipc) {
    |ps| == |a.cell| == |a.queue| && AllShown(ps, a) && AllListed(ps, a)
  }

  ghost predicate AllShown(ps: seq<Process>, a: R.Ipc)
    requires |ps| == |a.cell|
  {
    forall p :: 0 <= p < |ps| ==> Shown(ps, a, p)
  }

  ghost predicate AllListed(ps: seq<Process>, a: R.Ipc)
    requires |ps| == |a.queue|
  {
    forall d :: 0 <= d < |ps| ==> Listed(ps, a, d)
  }

  ghost predicate Shown(ps: seq<Process>, a: R.Ipc, p: nat)
    requires p < |ps| == |a.cell|
  {
    Shows(ps[p], a.cell[p]) && (!a.cell[p].status.Sending? ==> ps[p].next == NIL)
  }

  ghost predicate Listed(ps: seq<Process>, a: R.Ipc, d: nat)
    requires d < |ps| == |a.queue|
  {
    Linked(ps, ps[d].qSending, a.queue[d])
  }

  function TicksOf(ps: seq<Process>): (r: seq<int>) {
    seq(|ps|, p requires 0 <= p < |ps| => ps[p].ticks)
  }

  function PriorityOf(ps: seq<Process>): (r: seq<int>) {
    seq(|ps|, p requires 0 <= p < |ps| => ps[p].priority)
  }

  function ReadyOf(ps: seq<Process>): (r: seq<bool>) {
    seq(|ps|, p requires 0 <= p < |ps| => ps[p].flags == {})
  }

  function SchedOf(ps: seq<Process>, current: nat): (r: S.Sched) {
    S.Sched(current, TicksOf(ps), PriorityOf(ps), ReadyOf(ps))
  }

  ghost predicate SameButTicks(ps: seq<Process>, qs: seq<Process>) {
    |ps| == |qs| && forall p :: 0 <= p < |ps| ==> qs[p] == ps[p].(ticks := qs[p].ticks)
  }

  lemma TicksDoNotMatter(ps: seq<Process>, qs: seq<Process>, a: R.Ipc)
    requires Represents(ps, a) && SameButTicks(ps, qs)
    ensures Represents(qs, a) && ReadyOf(qs) == ReadyOf(ps) && PriorityOf(qs) == PriorityOf(ps)
  {
    forall d | 0 <= d < |qs| ensures Shown(qs, a, d) && Listed(qs, a, d) {
      assert Shown(ps, a, d) && Listed(ps, a, d);
    }
  }

  /** Entry `p` of the table after `s` has been hung at the end of `d`'s list `q`. */
  function AppendAt(ps: seq<Process>, q: seq<nat>, s: nat, d: nat, p: nat): Process
    requires p < |ps|
  {
    if q == [] && p == d then ps[p].(qSending := s)
    else if q != [] && p == q[|q| - 1] then ps[p].(next := s)
    else ps[p]
  }

  lemma AppendLinks(ps: seq<Process>, qs: seq<Process>, head: int, q: seq<nat>, s: nat)
    requires Linked(ps, head, q) && |qs| == |ps| && s < |qs| && qs[s].next == NIL
    requires forall i :: 0 <= i < |q| - 1 ==> qs[q[i]].next == ps[q[i]].next
    requires q != [] ==> qs[q[|q| - 1]].next == s
    ensures Linked(qs, if q == [] then s else head, q + [s])
  {
  }

  /** Only `r`'s list and the links of its members have changed. */
  lemma OtherLists(ps: seq<Process>, qs: seq<Process>, a: R.Ipc, b: R.Ipc, r: nat)
    requires |qs| == |ps| == |a.cell| == |a.queue| == |b.queue| && AllListed(ps, a)
    requires forall d :: 0 <= d < |ps| ==> R.QueueOk(a, d)
    requires forall d :: 0 <= d < |ps| && d != r ==>
      b.queue[d] == a.queue[d] && qs[d].qSending == ps[d].qSending
    requires forall p :: 0 <= p < |ps| && a.cell[p].status.Sending? && a.cell[p].status.to != r ==>
      qs[p].next == ps[p].next
    requires r < |ps| && Listed(qs, b, r)
    ensures AllListed(qs, b)
  {
    forall d | 0 <= d < |qs| ensures Listed(qs, b, d) {
      assert Listed(ps, a, d) && R.QueueOk(a, d);
    }
  }

  /** Appending the newly blocked `s` after the last element of `d`'s list. */
  lemma EnqueueLinks(ps: seq<Process>, qs: seq<Process>, a: R.Ipc, s: nat, d: nat, m: nat)
    requires R.Invariant(a) && Represents(ps, a) && |qs| == |ps|
    requires s < |ps| && d < |ps| && s != d && a.cell[s].status == R.Ready && !R.Accepts(a.cell[d], s)
    requires qs[s] == ps[s].(flags := {SENDING}, sendTo := d, msg := m, next := NIL)
    requires forall p :: 0 <= p < |ps| && p != s ==>
      qs[p] == AppendAt(ps, a.queue[d], s, d, p)
    ensures Represents(qs, R.Post(a, s, d, m))
  {
    var b := R.Post(a, s, d, m);
    var q := a.queue[d];
    assert R.QueueOk(a, d) && Listed(ps, a, d);
    forall p | 0 <= p < |ps| ensures Shown(qs, b, p) {
      assert Shown(ps, a, p);
    }
    AppendLinks(ps, qs, ps[d].qSending, q, s);
    assert b.queue[d] == q + [s];
    OtherLists(ps, qs, a, b, d);
  }

  /** Seen by the scheduler, all that happened is that `s` got a flag. */
  lemma OnlyBlocked(ps: seq<Process>, qs: seq<Process>, s: nat)
    requires |qs| == |ps| && s < |ps| && qs[s].flags != {}
    requires forall p :: 0 <= p < |ps| ==> qs[p].ticks == ps[p].ticks && qs[p].priority == ps[p].priority
    requires forall p :: 0 <= p < |ps| && p != s ==> qs[p].flags == ps[p].flags
    ensures TicksOf(qs) == TicksOf(ps) && PriorityOf(qs) == PriorityOf(ps) && ReadyOf(qs) == ReadyOf(ps)[s := false]
  {
  }

  lemma OnlyWoken(ps: seq<Process>, qs: seq<Process>, f: nat)
    requires |qs| == |ps| && f < |ps| && qs[f].flags == {} && ps[f].flags != {}
    requires forall p :: 0 <= p < |ps| ==> qs[p].ticks == ps[p].ticks && qs[p].priority == ps[p].priority
    requires forall p :: 0 <= p < |ps| && p != f ==> qs[p].flags == ps[p].flags
    ensures TicksOf(qs) == TicksOf(ps) && PriorityOf(qs) == PriorityOf(ps)
    ensures ReadyOf(qs) == ReadyOf(ps)[f := true] && !ReadyOf(ps)[f]
  {
  }

  /** An interrupt that finds nobody waiting for it only sets the pending bit. */
  lemma PendingShown(ps: seq<Process>, qs: seq<Process>, a: R.Ipc, d: nat)
    requires Represents(ps, a) && d < |ps| == |qs| && !R.AwaitsInterrupt(a.cell[d])
    requires qs == ps[d := ps[d].(hasInt := true)]
    ensures Represents(qs, R.Strike(a, d))
    ensures TicksOf(qs) == TicksOf(ps) && PriorityOf(qs) == PriorityOf(ps) && ReadyOf(qs) == ReadyOf(ps)
  {
    forall p | 0 <= p < |ps| ensures Shown(qs, R.Strike(a, d), p) && Listed(qs, R.Strike(a, d), p) {
      assert Shown(ps, a, p) && Listed(ps, a, p);
    }
  }

  /** A change of one process that touches no list pointer and no sender. */
  lemma OneCell(ps: seq<Process>, qs: seq<Process>, a: R.Ipc, b: R.Ipc, r: nat)
    requires Represents(ps, a) && r < |ps| == |qs| == |b.cell| && qs == ps[r := qs[r]]
    requires Shows(qs[r], b.cell[r]) && qs[r].next == ps[r].next && qs[r].qSending == ps[r].qSending
    requires !a.cell[r].status.Sending? && b == a.(cell := a.cell[r := b.cell[r]])
    ensures Represents(qs, b)
  {
    forall p | 0 <= p < |ps| ensures Shows(qs[p], b.cell[p]) {
      assert Shown(ps, a, p);
    }
    SameLists(ps, qs, a, b);
  }

  /** Changes that touch no list pointer. */
  lemma SameLists(ps: seq<Process>, qs: seq<Process>, a: R.Ipc, b: R.Ipc)
    requires Represents(ps, a) && |qs| == |ps| == |b.cell| && b.queue == a.queue
    requires forall p :: 0 <= p < |ps| ==>
      Shows(qs[p], b.cell[p]) && qs[p].next == ps[p].next && qs[p].qSending == ps[p].qSending &&
      (a.cell[p].status.Sending? ==> b.cell[p].status.Sending?)
    ensures Represents(qs, b)
  {
    forall d | 0 <= d < |qs| ensures Shown(qs, b, d) && Listed(qs, b, d) {
      assert Shown(ps, a, d) && Listed(ps, a, d);
    }
  }

  /** The receiver `d` has taken the message of `s` and both are ready. */
  lemma HandOverRepresents(ps: seq<Process>, a: R.Ipc, s: nat, d: nat, m: nat)
    requires Represents(ps, a) && s < |ps| && d < |ps| && s != d && R.Accepts(a.cell[d], s)
    requires a.cell[s].status == R.Ready
    ensures Represents(HandedOver(ps, s, d, m), R.Post(a, s, d, m))
    ensures TicksOf(HandedOver(ps, s, d, m)) == TicksOf(ps) && PriorityOf(HandedOver(ps, s, d, m)) == PriorityOf(ps)
    ensures ReadyOf(HandedOver(ps, s, d, m)) == ReadyOf(ps)[d := true] && ReadyOf(ps)[d] == false
  {
    var qs := HandedOver(ps, s, d, m);
    var b := R.Post(a, s, d, m);
    assert Shown(ps, a, d) && Shown(ps, a, s);
    forall p | 0 <= p < |ps|
      ensures Shows(qs[p], b.cell[p]) && qs[p].next == ps[p].next && qs[p].qSending == ps[p].qSending
    {
      assert Shown(ps, a, p);
    }
    SameLists(ps, qs, a, b);
  }

  function HandedOver(ps: seq<Process>, s: nat, d: nat, m: nat): (qs: seq<Process>)
    requires s < |ps| && d < |ps|
  {
    ps[s := ps[s].(msg := 0)]
      [d := ps[d].(flags := ps[d].flags - {RECEIVING}, msg := 0, recvFrom := NO_TASK,
                   mem := ps[d].mem[ps[d].msg := Load(ps[s].mem, m)])]
  }

  /** Bridging over the `i`-th element of a list, at its head or in its middle. */
  lemma UnlinkList(ps: seq<Process>, qs: seq<Process>, head: int, q: seq<nat>, i: nat)
    requires Linked(ps, head, q) && Distinct(q) && i < |q| && |qs| == |ps|
    requires forall j :: 0 <= j < |q| && j != i ==>
      qs[q[j]].next == if j == i - 1 then ps[q[i]].next else ps[q[j]].next
    ensures Linked(qs, if i == 0 then ps[q[0]].next else head, q[..i] + q[i + 1..])
  {
  }

  /** The table after the `i`-th element `f` has been taken out of `r`'s list `q` and woken. */
  ghost predicate Dequeued(ps: seq<Process>, qs: seq<Process>, q: seq<nat>, r: nat, i: nat, f: nat, m: nat) {
    |qs| == |ps| && r < |ps| && f < |ps| && f != r && i < |q| && f == q[i] &&
    qs[f] == ps[f].(flags := {}, msg := 0, sendTo := NO_TASK, next := NIL) &&
    qs[r] == ps[r].(mem := ps[r].mem[m := Load(ps[f].mem, ps[f].msg)],
                     qSending := if i == 0 then ps[f].next else ps[r].qSending) &&
    forall p :: 0 <= p < |ps| && p != r && p != f ==>
      qs[p] == if i > 0 && p == q[i - 1] then ps[p].(next := ps[f].next) else ps[p]
  }

  lemma DequeueShows(ps: seq<Process>, qs: seq<Process>, a: R.Ipc, r: nat, i: nat, f: nat, src: int, m: nat)
    requires R.Invariant(a) && Represents(ps, a) && r < |ps| && a.cell[r].status == R.Ready
    requires !R.TakesInterrupt(a, r, src) && R.Chosen(a, r, src) == f && R.TakeDefined(a, r, src)
    requires Dequeued(ps, qs, a.queue[r], r, i, f, m)
    ensures AllShown(qs, R.Take(a, r, src, m))
  {
    var b := R.Take(a, r, src, m);
    assert R.QueueOk(a, r) && Shown(ps, a, f);
    forall p | 0 <= p < |ps| ensures Shown(qs, b, p) {
      assert Shown(ps, a, p);
    }
  }

  lemma DequeueNext(ps: seq<Process>, qs: seq<Process>, a: R.Ipc, r: nat, i: nat, f: nat, m: nat, k: nat)
    requires R.Invariant(a) && r < |a.cell| == |ps| && a.cell[r].status == R.Ready && k < |a.queue[r]| && k != i
    requires Dequeued(ps, qs, a.queue[r], r, i, f, m)
    ensures a.queue[r][k] < |qs|
    ensures qs[a.queue[r][k]].next == if k == i - 1 then ps[f].next else ps[a.queue[r][k]].next
  {
    assert R.QueueOk(a, r);
    assert a.cell[a.queue[r][k]].status == R.Sending(r);
  }

  lemma DequeueOwn(ps: seq<Process>, qs: seq<Process>, a: R.Ipc, r: nat, i: nat, f: nat, src: int, m: nat)
    requires R.Invariant(a) && Represents(ps, a) && r < |ps| && a.cell[r].status == R.Ready
    requires !R.TakesInterrupt(a, r, src) && R.Chosen(a, r, src) == f
    requires Dequeued(ps, qs, a.queue[r], r, i, f, m)
    ensures f in a.queue[r] && IndexOf(a.queue[r], f) == i && Listed(qs, R.Take(a, r, src, m), r)
  {
    var q := a.queue[r];
    assert R.QueueOk(a, r) && Listed(ps, a, r);
    forall k | 0 <= k < |q| && k != i
      ensures qs[q[k]].next == if k == i - 1 then ps[f].next else ps[q[k]].next
    {
      DequeueNext(ps, qs, a, r, i, f, m, k);
    }
    UnlinkList(ps, qs, ps[r].qSending, q, i);
    assert R.Take(a, r, src, m).queue[r] == q[..i] + q[i + 1..];
  }

  /** Taking the `i`-th element `f` out of `r`'s list and waking it. */
  lemma DequeueLinks(ps: seq<Process>, qs: seq<Process>, a: R.Ipc, r: nat, i: nat, f: nat, src: int, m: nat)
    requires R.Invariant(a) && Represents(ps, a) && r < |ps| && a.cell[r].status == R.Ready
    requires !R.TakesInterrupt(a, r, src) && R.Chosen(a, r, src) == f
    requires Dequeued(ps, qs, a.queue[r], r, i, f, m)
    ensures f in a.queue[r] && Represents(qs, R.Take(a, r, src, m))
  {
    DequeueOwn(ps, qs, a, r, i, f, src, m);
    DequeueShows(ps, qs, a, r, i, f, src, m);
    assert R.QueueOk(a, r);
    OtherLists(ps, qs, a, R.Take(a, r, src, m), r);
  }

  /** The same, seen by the invariant and by the scheduler. */
  lemma DequeueKeeps(ps: seq<Process>, qs: seq<Process>, a: R.Ipc, r: nat, i: nat, f: nat, src: int, m: nat)
    requires S.Balanced(SchedOf(ps, r))
    requires R.Invariant(a) && Represents(ps, a) && r < |ps| && R.Callable(a, R.Receive(r, src, m))
    requires !R.TakesInterrupt(a, r, src) && R.Chosen(a, r, src) == f && f < |ps|
    requires ps[f].flags != {} && Dequeued(ps, qs, a.queue[r], r, i, f, m)
    ensures R.TakeDefined(a, r, src)
    ensures Represents(qs, R.Take(a, r, src, m)) && R.Invariant(R.Take(a, r, src, m))
    ensures S.Balanced(SchedOf(qs, r)) && S.Step(SchedOf(ps, r), S.Wake(f), SchedOf(qs, r))
  {
    DequeueLinks(ps, qs, a, r, i, f, src, m);
    OnlyWoken(ps, qs, f);
    R.TakeKeeps(a, r, src, m);
  }

  function StartPriority(i: nat): int {
    if i < NR_PROCS then 200 - 50 * i else 600 - 50 * (i - NR_PROCS)
  }

  class Kernel {
    const proc: array<Process>
    /** A task that never calls send or receive: the terminal's. */
    const idle: nat
    var current: nat
    var clock: int
    ghost var ipc: R.Ipc

    ghost predicate Valid()
      reads this, proc
    {
      Represents(proc[..], ipc) && R.Invariant(ipc) &&
      S.Balanced(SchedOf(proc[..], current)) &&
      idle < proc.Length && proc[idle].flags == {} && proc[idle].priority > 0
    }

    ghost function Sched(): S.Sched
      reads this, proc
    {
      SchedOf(proc[..], current)
    }

    /** `kernel_main`: user processes get 200, 150 and 100 ticks, tasks 600, 550, 500 and 450. */
    constructor Boot()
      ensures Valid() && fresh(proc) && proc.Length == NR_PROCS + NR_TASKS && idle == TASK_TTY
      ensures current == 0 && clock == 0 && ipc == R.Initial(NR_PROCS + NR_TASKS)
      ensures Sched().ticks == Sched().priority == [200, 150, 100, 600, 550, 500, 450]
    {
      var table := new Process[NR_PROCS + NR_TASKS](_ => Process({}, 0, 0, 0, false, 0, 0, map[], 0, 0));
      proc := table;
      idle := TASK_TTY;
      current := 0;
      clock := 0;
      ipc := R.Initial(NR_PROCS + NR_TASKS);
      var priority := 200;
      var i := 0;
      while i < NR_PROCS + NR_TASKS
        invariant i <= NR_PROCS + NR_TASKS == table.Length && fresh(table)
        invariant i == NR_PROCS || priority == StartPriority(i)
        invariant forall p :: 0 <= p < i ==>
          table[p] == Process({}, 0, NO_TASK, NO_TASK, false, NIL, NIL, map[], StartPriority(p), StartPriority(p))
        invariant forall p :: i <= p < table.Length ==> table[p].msg == 0 && table[p].mem == map[]
      {
        if i == NR_PROCS {
          priority := 600;
        }
        table[i] := table[i].(priority := priority, ticks := priority);
        table[i] := table[i].(flags := {}, recvFrom := NO_TASK, sendTo := NO_TASK, hasInt := false);
        table[i] := table[i].(qSending := NIL, next := NIL);
        i := i + 1;
        priority := priority - 50;
      }
      new;
      R.InitialInvariant(NR_PROCS + NR_TASKS);
      forall p | 0 <= p < proc.Length ensures Shown(proc[..], ipc, p) && Listed(proc[..], ipc, p) {
      }
    }

    /** Everyone ready before `n` has at most `greatest` ticks, and when `greatest` is
        positive the current process is the first to have that many. */
    ghost predicate BestBelow(n: nat, greatest: int)
      requires n <= proc.Length
      reads this, proc
    {
      greatest >= 0 &&
      (forall q :: 0 <= q < n && proc[q].flags == {} ==> proc[q].ticks <= greatest) &&
      (greatest > 0 ==>
        current < n && proc[current].flags == {} && proc[current].ticks == greatest &&
        forall q :: 0 <= q < current && proc[q].flags == {} ==> proc[q].ticks < greatest)
    }

    /** The first loop of `schedule`: the ready process with most ticks, if any has some. */
    method PickGreatest() returns (greatest: int)
      modifies this`current
      ensures BestBelow(proc.Length, greatest)
      ensures greatest == 0 ==> forall q :: 0 <= q < proc.Length && proc[q].flags == {} ==> proc[q].ticks <= 0
      ensures greatest != 0 ==>
        current < proc.Length && proc[current].flags == {} && proc[current].ticks == greatest > 0 &&
        forall q :: 0 <= q < proc.Length && proc[q].flags == {} ==>
          proc[q].ticks <= greatest && (q < current ==> proc[q].ticks < greatest)
    {
      greatest := 0;
      var p := 0;
      while p < proc.Length
        invariant p <= proc.Length && BestBelow(p, greatest)
      {
        if proc[p].flags == {} && proc[p].ticks > greatest {
          greatest := proc[p].ticks;
          current := p;
        }
        p := p + 1;
      }
    }

    /** The second loop of `schedule`. */
    method RefillTicks()
      modifies proc
      ensures SameButTicks(old(proc[..]), proc[..])
      ensures forall p :: 0 <= p < proc.Length ==>
        proc[p] == if old(proc[p]).flags == {} then old(proc[p]).(ticks := old(proc[p]).priority) else old(proc[p])
      ensures TicksOf(proc[..]) == S.Refill(old(TicksOf(proc[..])), old(PriorityOf(proc[..])), old(ReadyOf(proc[..])))
    {
      ghost var now := proc[..];
      var p := 0;
      while p < proc.Length
        invariant p <= proc.Length
        invariant forall q :: 0 <= q < proc.Length ==>
          proc[q] == if q < p && now[q].flags == {} then now[q].(ticks := now[q].priority) else now[q]
      {
        if proc[p].flags == {} {
          proc[p] := proc[p].(ticks := proc[p].priority);
        }
        p := p + 1;
      }
    }

    method Schedule()
      requires S.CanSchedule(TicksOf(proc[..]), PriorityOf(proc[..]), ReadyOf(proc[..]))
      modifies proc, this`current
      ensures S.Scheduled(old(TicksOf(proc[..])), old(PriorityOf(proc[..])), old(ReadyOf(proc[..])), Sched())
      ensures SameButTicks(old(proc[..]), proc[..])
      ensures forall p :: 0 <= p < proc.Length && old(proc[p]).flags != {} ==> proc[p] == old(proc[p])
    {
      ghost var before := proc[..];
      ghost var spent := false;
      var greatest := 0;
      while greatest == 0
        invariant SameButTicks(before, proc[..])
        invariant forall p :: 0 <= p < proc.Length && before[p].flags != {} ==> proc[p] == before[p]
        invariant greatest >= 0
        invariant spent ==> S.Exhausted(TicksOf(before), ReadyOf(before))
        invariant greatest > 0 ==> S.Best(TicksOf(proc[..]), ReadyOf(before), current)
        invariant TicksOf(proc[..]) ==
          if spent then S.Refill(TicksOf(before), PriorityOf(before), ReadyOf(before)) else TicksOf(before)
        decreases greatest == 0, !spent
      {
        greatest := PickGreatest();
        if greatest == 0 {
          assert S.Exhausted(TicksOf(proc[..]), ReadyOf(before));
          if spent {
            S.ScheduleLoops(TicksOf(before), PriorityOf(before), ReadyOf(before), current);
            assert false;
          }
          RefillTicks();
          spent := true;
        }
      }
    }

    /** Follows the chain of blocked senders from `dest`; on a hit, prints it. */
    method Deadlock(src: nat, dest: nat) returns (found: bool)
      requires Valid() && src < proc.Length && dest < proc.Length && src != dest
      ensures found <==> R.Reaches(ipc, dest, src)
    {
      ghost var rank :| R.Ranked(ipc, rank);
      ghost var k: nat := 0;
      var p: int := dest;
      while true
        invariant 0 <= p < proc.Length && R.Hop(ipc, dest, k) == p
        invariant forall j: nat :: j <= k ==> R.Hop(ipc, dest, j) != src
        decreases rank[p]
      {
        assert Shown(proc[..], ipc, p) && R.StatusOk(ipc, p);
        assert R.EdgeDescends(ipc, rank, p);
        R.HopAdd(ipc, dest, k, 1);
        if SENDING in proc[p].flags {
          assert R.Hop(ipc, p, 1) == ipc.cell[p].status.to;
          if proc[p].sendTo == src {
            assert R.Hop(ipc, dest, k + 1) == src;
            var printed := PrintCycle(src, dest, k);
            return true;
          }
          p := proc[p].sendTo;
          k := k + 1;
        } else {
          forall j: nat | R.Hop(ipc, dest, j) == src ensures false {
            R.HopAdd(ipc, dest, k, j - k);
          }
          return false;
        }
      }
    }

    /** The printing loop: prints the chain of senders from `dest` to `src`.  Every process on the
        way is blocked with a message, and the loop ends because `src` lies on the chain. */
    method PrintCycle(src: nat, dest: nat, ghost k: nat) returns (printed: seq<int>)
      requires Valid() && src < proc.Length && dest < proc.Length
      requires R.Hop(ipc, dest, k + 1) == src
      requires forall j: nat :: j <= k ==> R.Hop(ipc, dest, j) != src
      ensures |printed| == k + 2 && forall j: nat :: j < |printed| ==> printed[j] == R.Hop(ipc, dest, j)
      ensures printed[0] == dest && printed[k + 1] == src && src !in printed[..k + 1]
    {
      var p: int := dest;
      ghost var j: nat := 0;
      printed := [p];
      while true
        invariant j <= k && 0 <= p < proc.Length && R.Hop(ipc, dest, j) == p && |printed| == j + 1
        invariant forall i: nat :: i <= j ==> printed[i] == R.Hop(ipc, dest, i)
        decreases k - j
      {
        assert Shown(proc[..], ipc, p) && R.StatusOk(ipc, p);
        R.HopAdd(ipc, dest, j, k + 1 - j);
        R.HopAdd(ipc, dest, j, 1);
        assert proc[p].msg != 0;
        p := proc[p].sendTo;
        printed := printed + [p];
        j := j + 1;
        if p == src {
          return;
        }
      }
    }

    /** `block`: the caller has just set a flag of the current process. */
    method Block(ghost before: seq<Process>)
      requires |before| == proc.Length && S.Balanced(SchedOf(before, current))
      requires Represents(proc[..], ipc) && R.Invariant(ipc)
      requires idle < proc.Length && idle != current && proc[idle].flags == {} && proc[idle].priority > 0
      requires proc[current].flags != {} && PriorityOf(proc[..]) == PriorityOf(before) &&
               TicksOf(proc[..]) == TicksOf(before)
      requires ReadyOf(proc[..]) == ReadyOf(before)[current := false]
      modifies this`current, proc
      ensures Valid() && SameButTicks(old(proc[..]), proc[..])
      ensures S.Step(SchedOf(before, old(current)), S.Block, Sched())
    {
      ghost var now := proc[..];
      ghost var s0 := SchedOf(before, current);
      assert ReadyOf(now)[idle] && PriorityOf(now)[idle] > 0;
      assert s0.ready[idle] && s0.priority[idle] > 0;
      Schedule();
      TicksDoNotMatter(now, proc[..], ipc);
      S.StepKeepsBalance(s0, S.Block, Sched());
    }

    /** The rendezvous branch of `msg_send`. */
    method HandOver(s: nat, d: nat, m: nat)
      requires s < proc.Length && d < proc.Length && s != d && m != 0
      requires proc[d].flags == {RECEIVING} && proc[d].msg != 0 && proc[d].sendTo == NO_TASK
      requires proc[s].flags == {} && proc[s].sendTo == NO_TASK && proc[s].recvFrom == NO_TASK
      modifies proc
      ensures proc[..] == HandedOver(old(proc[..]), s, d, m)
    {
      proc[d] := proc[d].(mem := proc[d].mem[proc[d].msg := Load(proc[s].mem, m)]);
      proc[s] := proc[s].(msg := 0);
      proc[d] := proc[d].(msg := 0);
      proc[d] := proc[d].(flags := proc[d].flags - {RECEIVING});
      proc[d] := proc[d].(recvFrom := NO_TASK);
      assert proc[d].flags == {} && proc[d].msg == 0 && proc[d].recvFrom == NO_TASK && proc[d].sendTo == NO_TASK;
      assert proc[s].flags == {} && proc[s].msg == 0 && proc[s].recvFrom == NO_TASK && proc[s].sendTo == NO_TASK;
    }

    /** Walks to the end of `d`'s list, which is `q`, and hangs `s` there. */
    method Append(s: nat, d: nat, ghost q: seq<nat>)
      requires d < proc.Length && Linked(proc[..], proc[d].qSending, q)
      modifies proc
      ensures forall p :: 0 <= p < proc.Length ==> proc[p] == AppendAt(old(proc[..]), q, s, d, p)
    {
      if proc[d].qSending != NIL {
        var p := proc[d].qSending;
        ghost var i := 0;
        while proc[p].next != NIL
          invariant i < |q| && p == q[i]
          decreases |q| - i
        {
          assert i + 1 < |q| ==> proc[..][q[i]].next == q[i + 1];
          p := proc[p].next;
          i := i + 1;
        }
        assert i < |q| - 1 ==> proc[..][q[i]].next == q[i + 1];
        proc[p] := proc[p].(next := s);
      } else {
        proc[d] := proc[d].(qSending := s);
      }
    }

    /** The blocking branch of `msg_send`, up to the call of `block`; `q` is `d`'s list. */
    method Enqueue(s: nat, d: nat, m: nat, ghost q: seq<nat>)
      requires s < proc.Length && d < proc.Length && s != d && proc[s].flags == {}
      requires Linked(proc[..], proc[d].qSending, q) && s !in q
      modifies proc
      ensures proc[s] == old(proc[s]).(flags := {SENDING}, sendTo := d, msg := m, next := NIL)
      ensures forall p :: 0 <= p < proc.Length && p != s ==> proc[p] == AppendAt(old(proc[..]), q, s, d, p)
    {
      proc[s] := proc[s].(flags := proc[s].flags + {SENDING});
      assert proc[s].flags == {SENDING};
      proc[s] := proc[s].(sendTo := d);
      proc[s] := proc[s].(msg := m);
      Append(s, d, q);
      proc[s] := proc[s].(next := NIL);
      assert proc[s].flags != {};
    }

    /** The branch of `msg_send` for a receiver that is not waiting for `s`. */
    method SendLater(s: nat, d: nat, m: nat)
      requires Valid() && s == current && s != idle && R.Callable(ipc, R.Send(s, d, m))
      requires !R.Accepts(ipc.cell[d], s) && R.Invariant(R.Post(ipc, s, d, m))
      modifies this`ipc, this`current, proc
      ensures Valid() && ipc == R.Post(old(ipc), s, d, m) && S.Step(old(Sched()), S.Block, Sched())
    {
      ghost var before := proc[..];
      assert Shown(before, ipc, s) && Listed(before, ipc, d) && R.QueueOk(ipc, d);
      Enqueue(s, d, m, ipc.queue[d]);
      EnqueueLinks(before, proc[..], ipc, s, d, m);
      ipc := R.Post(ipc, s, d, m);
      OnlyBlocked(before, proc[..], s);
      Block(before);
      assert proc[s].flags != {};
      assert proc[s].flags == {SENDING};
      assert proc[s].msg != 0;
      assert proc[s].recvFrom == NO_TASK;
      assert proc[s].sendTo == d;
    }

    method MsgSend(s: nat, d: nat, m: nat) returns (out: Outcome)
      requires Valid() && s == current && s != idle && R.Callable(ipc, R.Send(s, d, m))
      modifies this`ipc, this`current, proc
      ensures out == Halted <==> R.Reaches(old(ipc), d, s)
      ensures out != Halted ==> Valid() && ipc == R.Post(old(ipc), s, d, m)
      ensures out == Returned ==> R.Accepts(old(ipc).cell[d], s) && S.Step(old(Sched()), S.Wake(d), Sched())
      ensures out == Blocked ==> !R.Accepts(old(ipc).cell[d], s) && S.Step(old(Sched()), S.Block, Sched())
    {
      var dead := Deadlock(s, d);
      if dead {
        return Halted;
      }
      R.PostKeeps(ipc, s, d, m);
      ghost var before := proc[..];
      assert Shown(before, ipc, s) && Shown(before, ipc, d) && R.StatusOk(ipc, d);
      if RECEIVING in proc[d].flags && (proc[d].recvFrom == s || proc[d].recvFrom == ANY) {
        HandOver(s, d, m);
        HandOverRepresents(before, ipc, s, d, m);
        ipc := R.Post(ipc, s, d, m);
        out := Returned;
      } else {
        SendLater(s, d, m);
        out := Blocked;
      }
    }

    /** The element before `src` in `r`'s list `q`, or NIL if `src` is at its head. */
    method Before(r: nat, src: nat, ghost q: seq<nat>) returns (prev: int)
      requires r < proc.Length && src in q && Linked(proc[..], proc[r].qSending, q)
      ensures prev == var i := IndexOf(q, src); if i == 0 then NIL else q[i - 1]
    {
      ghost var k := IndexOf(q, src);
      ghost var i := 0;
      prev := NIL;
      var p := proc[r].qSending;
      while p != NIL && p != src
        invariant i <= k && p == q[i] && prev == if i == 0 then NIL else q[i - 1]
        decreases k - i
      {
        assert proc[..][q[i]].next == q[i + 1];
        prev := p;
        p := proc[p].next;
        i := i + 1;
      }
    }

    /** The copying branch of `msg_receive`: takes `f`, which is the `i`-th of `r`'s list `q` and
        follows `prev`, out of the list, copies its message and makes it ready. */
    method Accept(r: nat, f: nat, prev: int, m: nat, ghost q: seq<nat>, ghost i: nat)
      requires r < proc.Length && f < proc.Length && r != f && i < |q| && f == q[i]
      requires prev == if i == 0 then NIL else q[i - 1]
      requires -1 <= prev < proc.Length && prev != r && prev != f
      requires prev == NIL <==> f == proc[r].qSending
      requires proc[f].flags == {SENDING} && proc[f].msg != 0 && m != 0
      modifies proc
      ensures Dequeued(old(proc[..]), proc[..], q, r, i, f, m)
    {
      if f == proc[r].qSending {
        assert prev == NIL;
        proc[r] := proc[r].(qSending := proc[f].next);
        proc[f] := proc[f].(next := NIL);
      } else {
        assert prev != NIL;
        proc[prev] := proc[prev].(next := proc[f].next);
        proc[f] := proc[f].(next := NIL);
      }
      proc[r] := proc[r].(mem := proc[r].mem[m := Load(proc[f].mem, proc[f].msg)]);
      proc[f] := proc[f].(msg := 0);
      proc[f] := proc[f].(sendTo := NO_TASK);
      proc[f] := proc[f].(flags := proc[f].flags - {SENDING});
      assert proc[f].flags == {};
    }

    /** The branch of `msg_receive` that serves the blocked sender `f`, which follows `prev`. */
    method Serve(r: nat, src: int, f: nat, prev: int, m: nat)
      requires Valid() && r == current && R.Callable(ipc, R.Receive(r, src, m))
      requires !R.TakesInterrupt(ipc, r, src) && R.Chosen(ipc, r, src) == f && f in ipc.queue[r]
      requires prev == var i := IndexOf(ipc.queue[r], f); if i == 0 then NIL else ipc.queue[r][i - 1]
      modifies this`ipc, proc
      ensures R.TakeDefined(old(ipc), r, src)
      ensures Valid() && ipc == R.Take(old(ipc), r, src, m) && S.Step(old(Sched()), S.Wake(f), Sched())
    {
      ghost var before := proc[..];
      ghost var a := ipc;
      ghost var q := a.queue[r];
      ghost var i := IndexOf(q, f);
      assert Shown(before, a, r) && Listed(before, a, r) && R.QueueOk(a, r);
      assert Shown(before, a, f) && R.StatusOk(a, f);
      assert proc[f].flags == {SENDING} && proc[f].recvFrom == NO_TASK && proc[f].sendTo == r;
      assert f == q[0] ==> i == 0;
      Accept(r, f, prev, m, q, i);
      DequeueKeeps(before, proc[..], a, r, i, f, src, m);
      ipc := R.Take(a, r, src, m);
    }

    /** The branch of `msg_receive` that blocks; true if no interrupt is pending afterwards. */
    method Await(r: nat, src: int, m: nat) returns (fine: bool)
      requires Valid() && r == current && r != idle && R.Callable(ipc, R.Receive(r, src, m))
      requires !R.TakesInterrupt(ipc, r, src) && R.Chosen(ipc, r, src) == NIL
      modifies this`ipc, this`current, proc
      ensures fine == !old(ipc).cell[r].hasInt
      ensures R.TakeDefined(old(ipc), r, src)
      ensures Valid() && ipc == R.Take(old(ipc), r, src, m) && S.Step(old(Sched()), S.Block, Sched())
    {
      ghost var before := proc[..];
      ghost var a := ipc;
      assert Shown(before, a, r);
      proc[r] := proc[r].(flags := proc[r].flags + {RECEIVING});
      assert proc[r].flags != {};
      proc[r] := proc[r].(msg := m);
      proc[r] := proc[r].(recvFrom := src);
      OneCell(before, proc[..], a, R.Take(a, r, src, m), r);
      R.TakeKeeps(a, r, src, m);
      ipc := R.Take(a, r, src, m);
      OnlyBlocked(before, proc[..], r);
      Block(before);
      assert proc[r].flags == {RECEIVING} && proc[r].msg != 0 && proc[r].recvFrom != NO_TASK &&
             proc[r].sendTo == NO_TASK;
      fine := !proc[r].hasInt;
    }

    /** The branch of `msg_receive` that takes the pending interrupt. */
    method TakePending(r: nat, src: int, m: nat)
      requires Valid() && r == current && R.Callable(ipc, R.Receive(r, src, m)) && R.TakesInterrupt(ipc, r, src)
      modifies this`ipc, proc
      ensures R.TakeDefined(old(ipc), r, src)
      ensures Valid() && ipc == R.Take(old(ipc), r, src, m) && Sched() == old(Sched())
    {
      ghost var before := proc[..];
      ghost var a := ipc;
      assert Shown(before, a, r);
      R.TakeKeeps(a, r, src, m);
      proc[r] := proc[r].(mem := proc[r].mem[m := Load(proc[r].mem, proc[r].msg)]);
      proc[r] := proc[r].(hasInt := false);
      proc[r] := proc[r].(msg := 0);
      assert proc[r].flags == {} && proc[r].msg == 0 && proc[r].sendTo == NO_TASK && !proc[r].hasInt;
      OneCell(before, proc[..], a, R.Take(a, r, src, m), r);
      ipc := R.Take(a, r, src, m);
      assert ReadyOf(proc[..]) == ReadyOf(before) && TicksOf(proc[..]) == TicksOf(before);
      assert PriorityOf(proc[..]) == PriorityOf(before);
    }

    method MsgReceive(r: nat, src: int, m: nat) returns (out: Outcome)
      requires Valid() && r == current && r != idle && R.Callable(ipc, R.Receive(r, src, m))
      modifies this`ipc, this`current, proc
      ensures out == Halted <==> R.Halts(old(ipc), R.Receive(r, src, m))
      ensures R.TakeDefined(old(ipc), r, src)
      ensures out != Halted ==> Valid() && ipc == R.Take(old(ipc), r, src, m)
      ensures out == Blocked ==> S.Step(old(Sched()), S.Block, Sched())
      ensures out == Returned ==>
        if R.TakesInterrupt(old(ipc), r, src) then Sched() == old(Sched())
        else var f := R.Chosen(old(ipc), r, src); f >= 0 && S.Step(old(Sched()), S.Wake(f), Sched())
    {
      ghost var before := proc[..];
      ghost var a := ipc;
      assert Shown(before, a, r) && Listed(before, a, r);
      R.ChosenIsQueued(a, r, src);
      if proc[r].hasInt && (src == ANY || src == INTERRUPT) {
        TakePending(r, src, m);
        return Returned;
      }
      var copyok := false;
      var from := NIL;
      var prev := NIL;
      if src == ANY {
        if proc[r].qSending != NIL {
          from := proc[r].qSending;
          copyok := true;
        }
      } else if 0 <= src < proc.Length {
        assert Shown(before, a, src);
        from := src;
        if SENDING in proc[from].flags && proc[from].sendTo == r {
          copyok := true;
          assert proc[r].qSending != NIL;
          prev := Before(r, from, a.queue[r]);
        }
      }
      assert R.Chosen(a, r, src) == if copyok then from else NIL;
      if copyok {
        if proc[r].msg != 0 {
          return Halted;
        }
        Serve(r, src, from, prev, m);
        out := Returned;
      } else {
        var fine := Await(r, src, m);
        out := if fine then Blocked else Halted;
      }
    }

    function Call(function_: int, p: nat, srcDest: int, m: nat): R.Event
      requires function_ == SEND ==> srcDest >= 0
    {
      if function_ == SEND then R.Send(p, srcDest, m) else R.Receive(p, srcDest, m)
    }

    /** What `sendrec` asserts of its partner: a process other than the caller, ANY or INTERRUPT. */
    predicate Partner(srcDest: int)
      reads this
    {
      (0 <= srcDest < proc.Length && srcDest != current) || srcDest == ANY || srcDest == INTERRUPT
    }

    /** The system call `sendrec` of the current process. */
    method SysSendRec(function_: int, srcDest: int, m: nat) returns (out: Outcome)
      requires Valid() && current != idle && m != 0
      requires function_ == SEND ==> srcDest != ANY && srcDest != INTERRUPT
      modifies this`ipc, this`current, proc
      ensures !old(Partner(srcDest)) || (function_ != SEND && function_ != RECEIVE) ==> out == Halted
      ensures old(Partner(srcDest)) && (function_ == SEND || function_ == RECEIVE) ==>
        var e := Call(function_, old(current), srcDest, m);
        R.Callable(old(ipc), e) && (out == Halted <==> R.Halts(old(ipc), e)) &&
        (out != Halted ==> Valid() && ipc == R.Next(old(ipc), e))
      ensures out == Blocked ==> S.Step(old(Sched()), S.Block, Sched())
      ensures out == Returned ==> Sched() == old(Sched()) || exists f :: S.Step(old(Sched()), S.Wake(f), Sched())
    {
      if !Partner(srcDest) {
        return Halted;
      }
      var p := current;
      assert Shown(proc[..], ipc, p);
      if function_ == SEND {
        R.StampThenStep(ipc, R.Send(p, srcDest, m), m);
        Stamp(p, m);
        out := MsgSend(p, srcDest, m);
      } else if function_ == RECEIVE {
        R.StampThenStep(ipc, R.Receive(p, srcDest, m), m);
        Stamp(p, m);
        out := MsgReceive(p, srcDest, m);
      } else {
        out := Halted;
      }
    }

    /** `mla->source = caller`. */
    method Stamp(p: nat, m: nat)
      requires Valid() && p == current
      modifies this`ipc, proc
      ensures Valid() && ipc == R.Stamp(old(ipc), p, m) && Sched() == old(Sched())
    {
      ghost var before := proc[..];
      assert Shown(before, ipc, p);
      proc[p] := proc[p].(mem := proc[p].mem[m := Load(proc[p].mem, m).(source := p)]);
      R.StampKeeps(ipc, p, m);
      OneCell(before, proc[..], ipc, R.Stamp(ipc, p, m), p);
      ipc := R.Stamp(ipc, p, m);
      assert ReadyOf(proc[..]) == ReadyOf(before) && TicksOf(proc[..]) == TicksOf(before);
      assert PriorityOf(proc[..]) == PriorityOf(before);
    }

    /** The system call `sendint`, made by an interrupt handler. */
    method SysSendInt(dest: nat)
      requires Valid() && dest < proc.Length
      modifies this`ipc, proc
      ensures Valid() && ipc == R.Next(old(ipc), R.Interrupt(dest))
      ensures if R.AwaitsInterrupt(old(ipc).cell[dest]) then S.Step(old(Sched()), S.Wake(dest), Sched())
              else Sched() == old(Sched())
    {
      ghost var before := proc[..];
      ghost var a := ipc;
      assert Shown(before, a, dest) && R.StatusOk(a, dest);
      if RECEIVING in proc[dest].flags && (proc[dest].recvFrom == INTERRUPT || proc[dest].recvFrom == ANY) {
        proc[dest] := proc[dest].(hasInt := false);
        proc[dest] := proc[dest].(mem := proc[dest].mem[proc[dest].msg := Message(INTERRUPT, HARD_INT)]);
        proc[dest] := proc[dest].(flags := proc[dest].flags - {RECEIVING});
        proc[dest] := proc[dest].(recvFrom := NO_TASK);
        assert proc[dest].flags == {} && proc[dest].sendTo == NO_TASK;
        OneCell(before, proc[..], a, R.Strike(a, dest), dest);
        OnlyWoken(before, proc[..], dest);
      } else {
        proc[dest] := proc[dest].(hasInt := true);
        PendingShown(before, proc[..], a, dest);
      }
      R.StrikeKeeps(a, dest);
      ipc := R.Strike(a, dest);
      assert proc[idle].flags == {} && proc[idle].priority > 0;
    }

    /** The clock interrupt; it does nothing if it comes inside another kernel entry. */
    method ClockHandler(nested: bool)
      requires Valid()
      modifies this`clock, this`current, proc
      ensures Valid() && ipc == old(ipc)
      ensures nested ==> clock == old(clock) && current == old(current) && proc[..] == old(proc[..])
      ensures !nested ==> clock == old(clock) + 1 && S.Step(old(Sched()), S.Tick, Sched())
    {
      if nested {
        return;
      }
      ghost var before := proc[..];
      ghost var s0 := Sched();
      clock := clock + 1;
      proc[current] := proc[current].(ticks := proc[current].ticks - 1);
      ghost var now := proc[..];
      assert TicksOf(now) == TicksOf(before)[current := TicksOf(before)[current] - 1];
      TicksDoNotMatter(before, now, ipc);
      assert ReadyOf(now)[idle] && PriorityOf(now)[idle] > 0;
      Schedule();
      TicksDoNotMatter(now, proc[..], ipc);
      S.StepKeepsBalance(s0, S.Tick, Sched());
      assert SameButTicks(now, proc[..]);
    }
  }
}
