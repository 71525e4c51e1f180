/** How many moves a request still takes, however many requests the servers make of each other.
    The measure of a request counts what its server has yet to do, what the servers above that one
    have yet to do for it, and the requests that are in front of it in a queue.  No action raises
    it, and a move of the process that everybody on the way waits for lowers it. */
module Response {
  import opened Processes
  import opened Rendezvous
  import opened Layers

  // ---------------------------------------------------------------- budgets

  /** `left[t]` is how many requests and disk transfers server `t` may still make before it turns
      to the next request; it gets `k` of them with each request that it takes. */
  ghost predicate Shaped(w: System, left: seq<nat>) {
    |left| == |w.pc| == |w.ipc.cell| == |w.ipc.queue|
  }

  /** The process that the action moves: the caller, or the disk task for an interrupt. */
  function Actor(act: Action): nat {
    match act
    case StartTransfer => TASK_HD
    case Call(e) =>
      match e
      case Send(p, _, _) => p
      case Receive(p, _, _) => p
      case Interrupt(d) => d
      case Store(p, _, _) => p
  }

  /** A request to a server, or a disk transfer. */
  predicate Starts(act: Action) {
    act.StartTransfer? || (act.e.Send? && Rank(act.e.dest) > Rank(act.e.p))
  }

  /** The server that takes a request by the action, or NIL. */
  function Taker(w: System, act: Action): int
    requires |w.ipc.cell| == |w.ipc.queue| && Actor(act) < |w.ipc.cell|
  {
    if act.StartTransfer? then NIL
    else if act.e.Send? && Rank(act.e.dest) > Rank(act.e.p) && act.e.dest < |w.ipc.cell| &&
            Accepts(w.ipc.cell[act.e.dest], act.e.p) then act.e.dest
    else if act.e.Receive? && act.e.src == ANY && Chosen(w.ipc, act.e.p, ANY) != NIL then act.e.p
    else NIL
  }

  ghost predicate Affordable(w: System, left: seq<nat>, act: Action)
    requires Shaped(w, left) && Actor(act) < |left|
  {
    Starts(act) && Rank(Actor(act)) > 0 ==> left[Actor(act)] > 0
  }

  ghost function Spent(w: System, left: seq<nat>, k: nat, act: Action): (l: seq<nat>)
    requires Shaped(w, left) && Actor(act) < |left| && Affordable(w, left, act)
    ensures |l| == |left|
  {
    var a, t := Actor(act), Taker(w, act);
    var l := if Starts(act) && Rank(a) > 0 then left[a := left[a] - 1] else left;
    if 0 <= t < |l| then l[t := k] else l
  }

  /** A server is in the middle of a request or a transfer of its own. */
  ghost predicate InOp(w: System, t: nat)
    requires t < |w.pc| == |w.ipc.cell|
  {
    w.pc[t].awaits != NIL || w.pc[t].transfer ||
    (w.ipc.cell[t].status.Receiving? && w.ipc.cell[t].status.from != ANY)
  }

  ghost predicate WithinBudget(w: System, left: seq<nat>, k: nat, t: nat)
    requires Shaped(w, left) && t < |left|
  {
    Rank(t) > 0 ==> left[t] + (if InOp(w, t) then 1 else 0) <= k
  }

  ghost predicate Good(w: System, left: seq<nat>, k: nat) {
    Layered(w) && Shaped(w, left) && forall t :: 0 <= t < |left| ==> WithinBudget(w, left, k, t)
  }

  // ---------------------------------------------------------------- how many moves a request still takes

  /** `a` times `c`. */
  function Times(a: nat, c: nat): nat {
    if a == 0 then 0 else c + Times(a - 1, c)
  }

  lemma {:induction false} TimesIs(a: nat, c: nat)
    ensures Times(a, c) == a * c
  {
    if a > 0 {
      TimesIs(a - 1, c);
      assert (a - 1) * c + c == a * c;
    }
  }

  lemma {:induction false} TimesMono(a: nat, b: nat, c: nat, d: nat)
    requires a <= b && c <= d
    ensures Times(a, c) <= Times(b, d)
    decreases b
  {
    if a > 0 {
      TimesMono(a - 1, b - 1, c, d);
    }
  }

  /** What one request or transfer by a server of rank `r` costs at most, with `n` processes. */
  function OpCost(n: nat, k: nat, r: nat): (c: nat)
    ensures c >= 3
    decreases 3 - r
  {
    if r >= 3 then 3 else 3 + Times(n + 3, 3 + Times(k, OpCost(n, k, r + 1)))
  }

  /** What serving one request costs a server of rank `r` at most. */
  function ServiceCost(n: nat, k: nat, r: nat): nat {
    2 + Times(k, OpCost(n, k, r))
  }

  /** How many are in front of `x` in the queue of `u`. */
  function Place(w: System, x: nat, u: nat): nat
    requires u < |w.ipc.queue|
  {
    if x in w.ipc.queue[u] then IndexOf(w.ipc.queue[u], x) else 0
  }

  /** A bound on the moves until `x`, blocked sending to server `u`, has its request answered. */
  ghost function Queued(w: System, left: seq<nat>, k: nat, x: nat, u: nat): nat
    requires Shaped(w, left) && x < |left| && u < |left| && Rank(u) > Rank(x)
    decreases 3 - Rank(x), 0
  {
    Busy(w, left, k, u) + Times(Place(w, x, u) + 1, ServiceCost(|left|, k, Rank(u)) + 1)
  }

  /** A bound on the moves until `x` is done with the request or transfer it is in, or with its reply. */
  ghost function Pending(w: System, left: seq<nat>, k: nat, x: nat): nat
    requires Shaped(w, left) && x < |left|
    decreases 3 - Rank(x), 1
  {
    match w.ipc.cell[x].status
    case Sending(u) => if u < |left| && Rank(u) > Rank(x) then Queued(w, left, k, x, u) + 1 else 1
    case Ready =>
      if w.pc[x].awaits != NIL then 1 + BusyAbove(w, left, k, x, w.pc[x].awaits)
      else if w.pc[x].transfer then if w.armed then 2 else 1
      else 0
    case Receiving(f) =>
      if f == ANY then 0 else if f == INTERRUPT then 1 else BusyAbove(w, left, k, x, f)
  }

  ghost function BusyAbove(w: System, left: seq<nat>, k: nat, x: nat, u: int): nat
    requires Shaped(w, left) && x < |left|
    decreases 3 - Rank(x), 0
  {
    if 0 <= u < |left| && Rank(u) > Rank(x) then Busy(w, left, k, u) else 0
  }

  /** A bound on the moves until server `t` is ready to take the next request. */
  ghost function Busy(w: System, left: seq<nat>, k: nat, t: nat): nat
    requires Shaped(w, left) && t < |left|
    decreases 3 - Rank(t), 2
  {
    if w.ipc.cell[t].status == Receiving(ANY) then 0
    else (if w.pc[t].owes != NIL then 2 else 0) + Times(left[t], OpCost(|left|, k, Rank(t))) + Pending(w, left, k, t)
  }

  /** A server of higher rank costs less. */
  lemma {:induction false} CostsFall(n: nat, k: nat, r: nat, s: nat)
    requires r <= s
    ensures OpCost(n, k, s) <= OpCost(n, k, r) && ServiceCost(n, k, s) <= ServiceCost(n, k, r)
    decreases s - r
  {
    if r < s {
      CostFalls(n, k, r);
      CostsFall(n, k, r + 1, s);
    }
    TimesMono(k, k, OpCost(n, k, s), OpCost(n, k, r));
  }

  lemma {:induction false} CostFalls(n: nat, k: nat, r: nat)
    ensures OpCost(n, k, r + 1) <= OpCost(n, k, r)
    decreases 3 - r
  {
    if r < 3 {
      CostFalls(n, k, r + 1);
      TimesMono(k, k, OpCost(n, k, r + 2), OpCost(n, k, r + 1));
      TimesMono(n + 3, n + 3, 3 + Times(k, OpCost(n, k, r + 2)), 3 + Times(k, OpCost(n, k, r + 1)));
    }
  }

  // ---------------------------------------------------------------- the bounds hold

  lemma {:induction false} QueueIsShort(q: seq<nat>, n: nat)
    requires Distinct(q) && forall i :: 0 <= i < |q| ==> q[i] < n
    ensures |q| <= n
  {
    var s := set x | x in q;
    Cardinality(q, s);
    FewerThan(s, n);
  }

  lemma {:induction false} Cardinality(q: seq<nat>, s: set<nat>)
    requires Distinct(q) && s == set x | x in q
    ensures |s| == |q|
  {
    if q != [] {
      var last := q[|q| - 1];
      var rest := q[..|q| - 1];
      assert last !in rest;
      assert s - {last} == set x | x in rest;
      Cardinality(rest, s - {last});
    }
  }

  lemma {:induction false} FewerThan(s: set<nat>, n: nat)
    requires forall x :: x in s ==> x < n
    ensures |s| <= n
  {
    if n > 0 {
      FewerThan(s - {n - 1}, n - 1);
    }
  }

  /** A server that has something to do is never further from the next request than a service. */
  lemma {:induction false} BusyBound(w: System, left: seq<nat>, k: nat, t: nat)
    requires Good(w, left, k) && t < |left| && Rank(t) > 0
    ensures Busy(w, left, k, t) <= ServiceCost(|left|, k, Rank(t))
    decreases 3 - Rank(t), 2
  {
    var c := OpCost(|left|, k, Rank(t));
    assert WithinBudget(w, left, k, t) && Fits(w, t);
    if InOp(w, t) {
      PendingBound(w, left, k, t);
      TimesMono(left[t] + 1, k, c, c);
    } else {
      TimesMono(left[t], k, c, c);
    }
  }

  lemma {:induction false} PendingBound(w: System, left: seq<nat>, k: nat, x: nat)
    requires Good(w, left, k) && x < |left|
    ensures Pending(w, left, k, x) < OpCost(|left|, k, Rank(x))
    decreases 3 - Rank(x), 1
  {
    assert Fits(w, x);
    var s, n := w.ipc.cell[x].status, |left|;
    if s.Sending? && Rank(s.to) > Rank(x) {
      QueuedBound(w, left, k, x, s.to);
    } else if s == Ready && w.pc[x].awaits != NIL {
      AboveBound(w, left, k, x, w.pc[x].awaits);
    } else if s.Receiving? && s.from >= 0 {
      assert Fits(w, s.from);
      AboveBound(w, left, k, x, s.from);
    }
  }

  /** The cost of an operation covers a server and all who are in front in its queue. */
  lemma CostCovers(n: nat, k: nat, r: nat, u: nat, m: nat)
    requires r < u <= 3 && m <= n + 1
    ensures var f := ServiceCost(n, k, u); f + Times(m, f + 1) + 2 <= OpCost(n, k, r)
  {
    var f, g := ServiceCost(n, k, u), ServiceCost(n, k, r + 1);
    CostsFall(n, k, r + 1, u);
    TimesMono(m, n + 1, f + 1, g + 1);
    assert Times(n + 3, g + 1) == (g + 1) + Times(n + 2, g + 1);
    assert Times(n + 2, g + 1) == (g + 1) + Times(n + 1, g + 1);
  }

  /** `Queued` and `Busy` in terms of their parts. */
  lemma QueuedIs(w: System, left: seq<nat>, k: nat, x: nat, u: nat, s: nat)
    requires Shaped(w, left) && x < |left| && u < |left| && Rank(u) > Rank(x) && s == ServiceCost(|left|, k, Rank(u))
    ensures Queued(w, left, k, x, u) == Busy(w, left, k, u) + Times(Place(w, x, u) + 1, s + 1)
  {
  }

  lemma BusyIs(w: System, left: seq<nat>, k: nat, t: nat, c: nat)
    requires Shaped(w, left) && t < |left| && c == OpCost(|left|, k, Rank(t))
    ensures Busy(w, left, k, t) ==
            if w.ipc.cell[t].status == Receiving(ANY) then 0
            else (if w.pc[t].owes != NIL then 2 else 0) + Times(left[t], c) + Pending(w, left, k, t)
  {
  }

  lemma QueueFits(n: nat, k: nat, r: nat, u: nat, busy: nat, place: nat)
    requires r < u <= 3 && place <= n && busy <= ServiceCost(n, k, u)
    ensures busy + Times(place + 1, ServiceCost(n, k, u) + 1) + 1 < OpCost(n, k, r)
  {
    CostCovers(n, k, r, u, place + 1);
  }

  lemma PlaceIsShort(w: System, x: nat, u: nat)
    requires Layered(w) && x < |w.pc| && u < |w.pc| && w.ipc.cell[x].status == Sending(u)
    ensures u < |w.ipc.queue| && Place(w, x, u) < |w.pc|
  {
    assert QueueOk(w.ipc, u) && StatusOk(w.ipc, x);
    QueueIsShort(w.ipc.queue[u], |w.pc|);
  }

  lemma QueuedBound(w: System, left: seq<nat>, k: nat, x: nat, u: nat)
    requires Good(w, left, k) && x < |left| && w.ipc.cell[x].status == Sending(u) && u < |left| && Rank(u) > Rank(x)
    ensures Queued(w, left, k, x, u) + 1 < OpCost(|left|, k, Rank(x))
    decreases 3 - Rank(x), 0
  {
    BusyBound(w, left, k, u);
    PlaceIsShort(w, x, u);
    QueueFits(|left|, k, Rank(x), Rank(u), Busy(w, left, k, u), Place(w, x, u));
    QueuedIs(w, left, k, x, u, ServiceCost(|left|, k, Rank(u)));
  }

  lemma AboveBound(w: System, left: seq<nat>, k: nat, x: nat, u: int)
    requires Good(w, left, k) && x < |left| && 0 <= u < |left| && Rank(u) > Rank(x)
    ensures 1 + BusyAbove(w, left, k, x, u) < OpCost(|left|, k, Rank(x))
    decreases 3 - Rank(x), 0
  {
    BusyBound(w, left, k, u);
    CostCovers(|left|, k, Rank(x), Rank(u), 0);
  }

  // ---------------------------------------------------------------- what an action leaves alone

  /** The queues after a call. */
  lemma QueuesAfter(a: Ipc, e: Event)
    requires Invariant(a) && Callable(a, e) && !Halts(a, e)
    ensures |Next(a, e).queue| == |a.queue|
    ensures Next(a, e).queue ==
            match e
            case Send(p, d, _) => if Accepts(a.cell[d], p) then a.queue else a.queue[d := a.queue[d] + [p]]
            case Receive(p, src, _) =>
              var f := Chosen(a, p, src);
              if !TakesInterrupt(a, p, src) && 0 <= f && f in a.queue[p]
              then a.queue[p := Without(a.queue[p], f)] else a.queue
            case _ => a.queue
  {
    if e.Receive? {
      ChosenIsQueued(a, e.p, e.src);
    }
  }

  lemma IndexIs(q: seq<nat>, i: nat)
    requires Distinct(q) && i < |q|
    ensures IndexOf(q, q[i]) == i
  {
  }

  lemma IndexAppend(q: seq<nat>, p: nat, x: nat)
    requires Distinct(q + [p]) && x in q
    ensures IndexOf(q + [p], x) == IndexOf(q, x)
  {
    IndexIs(q + [p], IndexOf(q, x));
  }

  lemma IndexWithout(q: seq<nat>, f: nat, x: nat)
    requires Distinct(q) && f in q && x in q && x != f
    ensures x in Without(q, f) && Distinct(Without(q, f))
    ensures IndexOf(Without(q, f), x) == IndexOf(q, x) - if IndexOf(q, f) < IndexOf(q, x) then 1 else 0
  {
    var i, j := IndexOf(q, f), IndexOf(q, x);
    var r := Without(q, f);
    IndexIs(q, i);
    forall a, b | 0 <= a < b < |r| ensures r[a] != r[b] {
      assert r[a] == q[if a < i then a else a + 1] && r[b] == q[if b < i then b else b + 1];
    }
    var m := if i < j then j - 1 else j;
    assert r[m] == x;
    IndexIs(r, m);
  }

  /** The action leads from `w` to `v`. */
  ghost predicate Leads(w: System, act: Action, v: System) {
    Layered(w) && Follows(w, act) && v == Advance(w, act)
  }

  lemma PlaceAfterReceive(a: Ipc, b: Ipc, p: nat, src: int, addr: nat, x: nat)
    requires Invariant(a) && Stamped(a) && Callable(a, Receive(p, src, addr)) && !Halts(a, Receive(p, src, addr))
    requires b == Next(a, Receive(p, src, addr)) && x < |a.cell| == |b.cell|
    requires a.cell[x].status == b.cell[x].status == Sending(p)
    ensures p < |b.queue| && x in a.queue[p] && x in b.queue[p]
    ensures IndexOf(b.queue[p], x) + (if src == ANY && !TakesInterrupt(a, p, src) then 1 else 0) <=
            IndexOf(a.queue[p], x)
  {
    QueuesAfter(a, Receive(p, src, addr));
    ChosenIsQueued(a, p, src);
    ReceiveView(a, p, src, addr);
    assert StatusOk(a, x) && QueueOk(a, p);
    var f := Chosen(a, p, src);
    if !TakesInterrupt(a, p, src) && f != NIL {
      IndexWithout(a.queue[p], f, x);
      IndexIs(a.queue[p], 0);
    }
  }

  lemma PlaceAfterSend(a: Ipc, b: Ipc, p: nat, d: nat, addr: nat, x: nat, u: nat)
    requires Invariant(a) && Callable(a, Send(p, d, addr)) && !Halts(a, Send(p, d, addr))
    requires b == Next(a, Send(p, d, addr)) && u < |a.cell| && x < |a.cell| == |b.cell|
    requires a.cell[x].status == Sending(u) && x != p
    ensures u < |b.queue| && x in a.queue[u] && x in b.queue[u]
    ensures IndexOf(b.queue[u], x) == IndexOf(a.queue[u], x)
  {
    QueuesAfter(a, Send(p, d, addr));
    StepKeeps(a, Send(p, d, addr));
    assert StatusOk(a, x) && QueueOk(b, u);
    if b.queue[u] != a.queue[u] {
      IndexAppend(a.queue[u], p, x);
    }
  }

  /** Who stays in a queue does not move back, and moves up when the server takes a request. */
  lemma PlaceAfter(w: System, act: Action, v: System, x: nat, u: nat)
    requires Leads(w, act, v) && x < |w.pc| == |v.ipc.cell| && u < |w.ipc.queue| == |v.ipc.queue|
    requires w.ipc.cell[x].status == v.ipc.cell[x].status == Sending(u)
    ensures Place(v, x, u) + (if Taker(w, act) == u then 1 else 0) <= Place(w, x, u)
  {
    AdvanceKeeps(w, act);
    assert StatusOk(w.ipc, x) && !Missed(w.ipc, x);
    if act.Call? {
      QueuesAfter(w.ipc, act.e);
      if act.e.Send? {
        assert Fits(w, act.e.p) && Fits(w, u);
        PlaceAfterSend(w.ipc, v.ipc, act.e.p, act.e.dest, act.e.addr, x, u);
      } else if act.e.Receive? && act.e.p == u {
        assert Fits(w, u);
        PlaceAfterReceive(w.ipc, v.ipc, u, act.e.src, act.e.addr, x);
      }
    }
  }

  /** The effect of the disk's interrupt. */
  ghost predicate Struck(w: System, v: System) {
    |v.ipc.cell| == |w.ipc.cell| == |v.pc| == |w.pc| && TASK_HD < |w.pc| && v.pc == w.pc && w.armed && !v.armed &&
    (forall q :: 0 <= q < |w.pc| && q != TASK_HD ==> SameView(v.ipc.cell[q], w.ipc.cell[q])) &&
    v.ipc.cell[TASK_HD].status ==
      if w.ipc.cell[TASK_HD].status == Receiving(INTERRUPT) then Ready else w.ipc.cell[TASK_HD].status
  }

  /** The effect of an action that moves no message. */
  ghost predicate Alone(w: System, v: System, act: Action) {
    |v.ipc.cell| == |w.ipc.cell| == |v.pc| == |w.pc| && TASK_HD < |w.pc| &&
    (forall q :: 0 <= q < |w.pc| ==> SameView(v.ipc.cell[q], w.ipc.cell[q])) &&
    if act.StartTransfer? then
      w.ipc.cell[TASK_HD].status == Ready && w.pc[TASK_HD].awaits == NIL && !w.pc[TASK_HD].transfer && v.armed &&
      v.pc == w.pc[TASK_HD := w.pc[TASK_HD].(transfer := true)]
    else v.armed == w.armed && v.pc == w.pc
  }

  /** What an action does to all that the bounds depend on. */
  ghost predicate View(w: System, act: Action, v: System)
    requires Layered(w) && Follows(w, act)
  {
    if act.StartTransfer? || act.e.Store? then Alone(w, v, act)
    else if act.e.Interrupt? then Struck(w, v)
    else if act.e.Send? then
      if Rank(act.e.dest) > Rank(act.e.p) then Requested(w, v, act.e.p, act.e.dest)
      else Replied(w, v, act.e.p, act.e.dest)
    else
      var f := Chosen(w.ipc, act.e.p, act.e.src);
      if f < 0 then Waited(w, v, act.e.p, act.e.src) else Took(w, v, act.e.p, f)
  }

  lemma Views(w: System, act: Action, v: System)
    requires Leads(w, act, v)
    ensures Layered(v) && View(w, act, v)
  {
    AdvanceKeeps(w, act);
    if act.Call? && act.e.Send? {
      if Rank(act.e.dest) > Rank(act.e.p) {
        RequestSeen(w, act.e.p, act.e.dest, act.e.addr);
      } else {
        ReplySeen(w, act.e.p, act.e.dest, act.e.addr);
      }
    } else if act.Call? && act.e.Receive? {
      ReceiveSeen(w, act.e.p, act.e.src, act.e.addr);
    } else {
      assert Fits(w, TASK_HD);
    }
  }

  /** One step: the action is taken and paid for. */
  ghost predicate Steps(w: System, left: seq<nat>, k: nat, act: Action, v: System, left1: seq<nat>) {
    Good(w, left, k) && Leads(w, act, v) && Actor(act) < |left| && Affordable(w, left, act) &&
    left1 == Spent(w, left, k, act)
  }

  lemma ActorInRange(w: System, act: Action)
    requires Layered(w) && Follows(w, act)
    ensures Actor(act) < |w.pc|
  {
  }

  lemma InOpOfActor(w: System, act: Action, v: System)
    requires Leads(w, act, v) && View(w, act, v) && Layered(v) && Actor(act) < |w.pc| && Rank(Actor(act)) > 0
    ensures InOp(v, Actor(act)) ==> InOp(w, Actor(act)) || Starts(act)
    ensures Starts(act) ==> !InOp(w, Actor(act))
  {
    assert Fits(w, Actor(act)) && Fits(v, Actor(act));
  }

  lemma InOpOfOther(w: System, act: Action, v: System, t: nat)
    requires Leads(w, act, v) && View(w, act, v) && Layered(v) && t < |w.pc| && Rank(t) > 0 && t != Actor(act)
    ensures InOp(v, t) ==> InOp(w, t)
  {
    assert Fits(w, t) && Fits(v, t);
  }

  lemma TakerAfter(w: System, act: Action, v: System)
    requires Leads(w, act, v) && View(w, act, v) && Layered(v) && Taker(w, act) != NIL
    ensures var t := Taker(w, act);
            0 <= t < |w.pc| && !InOp(v, t) && !(Starts(act) && t == Actor(act)) && w.ipc.cell[t].status != Sending(t) &&
            v.ipc.cell[t].status == Ready && v.pc[t].owes != NIL && w.pc[t].owes == NIL && w.pc[t].awaits == NIL
  {
    var t := Taker(w, act);
    assert 0 <= t < |w.pc| && Fits(w, t) && Fits(v, t);
    assert act.Call? && act.e.Send? ==> Fits(w, act.e.p);
  }

  lemma BudgetKeeps(w: System, left: seq<nat>, k: nat, act: Action, v: System, left1: seq<nat>)
    requires Steps(w, left, k, act, v, left1)
    ensures Good(v, left1, k)
  {
    Views(w, act, v);
    if Taker(w, act) != NIL {
      TakerAfter(w, act, v);
    }
    forall t | 0 <= t < |left1| ensures WithinBudget(v, left1, k, t) {
      assert WithinBudget(w, left, k, t);
      if Rank(t) > 0 && t == Actor(act) {
        InOpOfActor(w, act, v);
      } else if Rank(t) > 0 {
        InOpOfOther(w, act, v, t);
      }
    }
  }

  // ---------------------------------------------------------------- who has to move

  /** The process that `p` waits for in the end, over everybody between. */
  ghost function Mover(w: System, p: nat): (q: nat)
    requires Layered(w) && p < |w.pc| && !Idle(w, p)
    ensures q < |w.pc| && CanMove(w, q)
    decreases Depth(w, p)
  {
    if WaitsOn(w, p) == NIL then
      assert Fits(w, p);
      p
    else
      EdgeGoesDown(w, p);
      Mover(w, WaitsOn(w, p))
  }

  /** The action is a move of the process that `p` waits for. */
  ghost predicate Moves(w: System, act: Action, p: nat)
    requires Layered(w) && p < |w.pc|
  {
    !Idle(w, p) && Actor(act) == Mover(w, p) && !(act.Call? && act.e.Store?)
  }

  // ---------------------------------------------------------------- every move brings the answer closer

  /** The action, its effect, and that everything is in order before and after it. */
  ghost predicate Stepped(w: System, left: seq<nat>, k: nat, act: Action, v: System, left1: seq<nat>) {
    Steps(w, left, k, act, v, left1) && View(w, act, v) && Good(v, left1, k)
  }

  /** Status and program position of `x` are the same. */
  ghost predicate Same(w: System, v: System, x: nat)
    requires x < |w.pc| == |w.ipc.cell| == |v.pc| == |v.ipc.cell|
  {
    v.pc[x] == w.pc[x] && v.ipc.cell[x].status == w.ipc.cell[x].status
  }

  /** A process that is blocked, or in an operation, has something ahead of it. */
  lemma PendingPositive(w: System, left: seq<nat>, k: nat, x: nat)
    requires Good(w, left, k) && x < |left| && !Idle(w, x)
    requires w.ipc.cell[x].status != Ready || w.pc[x].awaits != NIL || w.pc[x].transfer
    ensures Pending(w, left, k, x) > 0
  {
    assert Fits(w, x);
    var s := w.ipc.cell[x].status;
    if s.Receiving? && s.from >= 0 {
      assert Fits(w, s.from);
      assert BusyAbove(w, left, k, x, s.from) > 0;
    }
  }

  lemma AtRest(w: System, left: seq<nat>, k: nat, x: nat)
    requires Shaped(w, left) && x < |left| && !w.pc[x].transfer && w.pc[x].awaits == NIL
    requires w.ipc.cell[x].status == Ready || w.ipc.cell[x].status == Receiving(ANY)
    ensures Pending(w, left, k, x) == 0
  {
  }

  /** The server that `x` waits for takes nobody else's request. */
  lemma NotTaken(w: System, act: Action, v: System, x: nat, u: nat)
    requires Leads(w, act, v) && View(w, act, v) && Layered(v) && x < |w.pc| && u < |w.pc|
    requires w.ipc.cell[x].status == Receiving(u) || (w.ipc.cell[x].status == Ready && w.pc[x].awaits == u)
    ensures Taker(w, act) != u
  {
    assert Fits(w, x) && Fits(w, u);
    if Taker(w, act) == u {
      TakerAfter(w, act, v);
    }
  }

  /** Who has to move for `x` has to move for the process that `x` waits for. */
  lemma MoverOfBlocked(w: System, act: Action, v: System, x: nat)
    requires Leads(w, act, v) && View(w, act, v) && Layered(v) && x < |w.pc| && Same(w, v, x)
    requires WaitsOn(w, x) != NIL
    ensures var u := WaitsOn(w, x); 0 <= u < |w.pc| && !Idle(v, u) && (Moves(w, act, x) ==> Moves(w, act, u))
  {
    EdgeGoesDown(w, x);
    EdgeGoesDown(v, x);
  }

  /** A process that is not touched has not moved. */
  lemma UntouchedIsNoMove(w: System, act: Action, v: System, x: nat)
    requires Leads(w, act, v) && View(w, act, v) && Layered(v) && x < |w.pc| && Same(w, v, x)
    requires Actor(act) == x && !Starts(act) && !(act.Call? && act.e.Store?)
    ensures w.pc[x].transfer && w.armed && !v.armed
  {
    assert Fits(w, x) && Fits(v, x) && Fits(w, TASK_HD);
  }

  /** A reply that has not been taken has not been moved. */
  lemma ReplyIsNoMove(w: System, act: Action, v: System, x: nat)
    requires Leads(w, act, v) && View(w, act, v) && Layered(v) && x < |w.pc| && Same(w, v, x)
    requires w.ipc.cell[x].status.Sending? && Rank(w.ipc.cell[x].status.to) < Rank(x)
    ensures !Moves(w, act, x)
  {
    var d := w.ipc.cell[x].status.to;
    assert Fits(w, x) && Fits(w, d) && Fits(w, TASK_HD);
    assert Mover(w, x) == Mover(w, d) == d;
  }

  // ---------------------------------------------------------------- the bounds after a step

  lemma QueueTaken(busyV: nat, busyW: nat, placeV: nat, placeW: nat, s: nat)
    requires busyV <= s && placeV + 1 <= placeW
    ensures busyV + Times(placeV + 1, s + 1) + 1 <= busyW + Times(placeW + 1, s + 1)
  {
    TimesMono(placeV + 1, placeW, s + 1, s + 1);
  }

  lemma QueueMoves(busyV: nat, busyW: nat, m: nat, placeV: nat, placeW: nat, s: nat)
    requires busyV + m <= busyW && placeV <= placeW
    ensures busyV + Times(placeV + 1, s + 1) + m <= busyW + Times(placeW + 1, s + 1)
  {
    TimesMono(placeV + 1, placeW + 1, s + 1, s + 1);
  }

  /** The server takes somebody else's request: its own bound goes up by less than one place. */
  lemma QueuedWhenTaken(w: System, left: seq<nat>, k: nat, act: Action, v: System, left1: seq<nat>, x: nat, u: nat)
    requires Stepped(w, left, k, act, v, left1) && x < |left| && u < |left| && Rank(u) > Rank(x)
    requires Same(w, v, x) && w.ipc.cell[x].status == Sending(u) && Taker(w, act) == u
    ensures Queued(v, left1, k, x, u) + 1 <= Queued(w, left, k, x, u)
  {
    var s := ServiceCost(|left|, k, Rank(u));
    QueuedIs(w, left, k, x, u, s);
    QueuedIs(v, left1, k, x, u, s);
    PlaceAfter(w, act, v, x, u);
    BusyBound(v, left1, k, u);
    QueueTaken(Busy(v, left1, k, u), Busy(w, left, k, u), Place(v, x, u), Place(w, x, u), s);
  }

  /** It does not. */
  lemma QueuedWhileBusy(w: System, left: seq<nat>, k: nat, act: Action, v: System, left1: seq<nat>, x: nat, u: nat)
    requires Stepped(w, left, k, act, v, left1) && x < |left| && u < |left| && Rank(u) > Rank(x)
    requires Same(w, v, x) && w.ipc.cell[x].status == Sending(u) && Taker(w, act) != u
    ensures Queued(v, left1, k, x, u) + (if Moves(w, act, u) && !Idle(v, u) then 1 else 0) <= Queued(w, left, k, x, u)
    decreases 3 - Rank(x), 0
  {
    var s := ServiceCost(|left|, k, Rank(u));
    QueuedIs(w, left, k, x, u, s);
    QueuedIs(v, left1, k, x, u, s);
    PlaceAfter(w, act, v, x, u);
    BusyDown(w, left, k, act, v, left1, u);
    var m := if Moves(w, act, u) && !Idle(v, u) then 1 else 0;
    QueueMoves(Busy(v, left1, k, u), Busy(w, left, k, u), m, Place(v, x, u), Place(w, x, u), s);
  }

  lemma QueuedDown(w: System, left: seq<nat>, k: nat, act: Action, v: System, left1: seq<nat>, x: nat, u: nat)
    requires Stepped(w, left, k, act, v, left1) && x < |left| && u < |left| && Rank(u) > Rank(x)
    requires Same(w, v, x) && w.ipc.cell[x].status == Sending(u)
    ensures Queued(v, left1, k, x, u) + (if Moves(w, act, x) then 1 else 0) <= Queued(w, left, k, x, u)
    decreases 3 - Rank(x), 1
  {
    if Taker(w, act) == u {
      QueuedWhenTaken(w, left, k, act, v, left1, x, u);
    } else {
      MoverOfBlocked(w, act, v, x);
      QueuedWhileBusy(w, left, k, act, v, left1, x, u);
    }
  }

  lemma AboveDown(w: System, left: seq<nat>, k: nat, act: Action, v: System, left1: seq<nat>, x: nat, u: nat)
    requires Stepped(w, left, k, act, v, left1) && x < |left| && u < |left| && Rank(u) > Rank(x)
    requires w.ipc.cell[x].status == Receiving(u) || (w.ipc.cell[x].status == Ready && w.pc[x].awaits == u)
    ensures BusyAbove(v, left1, k, x, u) + (if Moves(w, act, u) && !Idle(v, u) then 1 else 0) <=
            BusyAbove(w, left, k, x, u)
    decreases 3 - Rank(x), 1
  {
    NotTaken(w, act, v, x, u);
    BusyDown(w, left, k, act, v, left1, u);
  }

  /** A process that is not touched is not further from being done. */
  lemma UntouchedDown(w: System, left: seq<nat>, k: nat, act: Action, v: System, left1: seq<nat>, x: nat)
    requires Stepped(w, left, k, act, v, left1) && x < |left| && Same(w, v, x)
    requires Actor(act) == x ==> act.Call? && !act.e.Send?
    ensures Pending(v, left1, k, x) + (if Moves(w, act, x) && Pending(w, left, k, x) > 0 then 1 else 0) <=
            Pending(w, left, k, x)
    decreases 3 - Rank(x), 2
  {
    assert Fits(w, x) && Fits(v, x);
    var s := w.ipc.cell[x].status;
    if s.Sending? && Rank(s.to) > Rank(x) {
      QueuedDown(w, left, k, act, v, left1, x, s.to);
    } else if s.Sending? {
      ReplyIsNoMove(w, act, v, x);
    } else if s.Receiving? && s.from >= 0 {
      MoverOfBlocked(w, act, v, x);
      assert Fits(w, s.from);
      AboveDown(w, left, k, act, v, left1, x, s.from);
    } else {
      if Moves(w, act, x) && Pending(w, left, k, x) > 0 {
        UntouchedIsNoMove(w, act, v, x);
      }
      if s == Ready && w.pc[x].awaits != NIL {
        AboveDown(w, left, k, act, v, left1, x, w.pc[x].awaits);
      }
    }
  }

  /** The caller of a receive, or the disk task at its interrupt. */
  lemma ActorDown(w: System, left: seq<nat>, k: nat, act: Action, v: System, left1: seq<nat>)
    requires Stepped(w, left, k, act, v, left1) && act.Call? && (act.e.Receive? || act.e.Interrupt?)
    ensures var x := Actor(act);
            Pending(v, left1, k, x) + (if Moves(w, act, x) && Pending(w, left, k, x) > 0 then 1 else 0) <=
            Pending(w, left, k, x)
    decreases 3 - Rank(Actor(act)), 2
  {
    var x := Actor(act);
    assert Fits(w, x) && Fits(v, x);
    if act.e.Receive? && w.pc[x].awaits != NIL {
      AboveDown(w, left, k, act, v, left1, x, w.pc[x].awaits);
    }
  }

  lemma TakenParts(w: System, act: Action, v: System, x: nat)
    requires Leads(w, act, v) && View(w, act, v) && act.Call? && act.e.Receive? && x < |w.pc|
    requires Rank(act.e.p) > Rank(x) && w.ipc.cell[x].status == Sending(act.e.p) && !Same(w, v, x)
    ensures v.ipc.cell[x].status == Ready && v.pc[x].awaits == act.e.p
  {
    assert Fits(w, x) && Fits(w, act.e.p);
  }

  /** A request that the server has just taken out of its queue. */
  lemma RequestTaken(w: System, left: seq<nat>, k: nat, act: Action, v: System, left1: seq<nat>, x: nat)
    requires Stepped(w, left, k, act, v, left1) && act.Call? && act.e.Receive? && x < |left|
    requires Rank(act.e.p) > Rank(x) && w.ipc.cell[x].status == Sending(act.e.p) && !Same(w, v, x)
    ensures Pending(v, left1, k, x) < Pending(w, left, k, x)
  {
    var a := act.e.p;
    var s := ServiceCost(|left|, k, Rank(a));
    TakenParts(w, act, v, x);
    BusyBound(v, left1, k, a);
    QueuedIs(w, left, k, x, a, s);
    TimesMono(1, Place(w, x, a) + 1, s + 1, s + 1);
    assert Times(1, s + 1) == s + 1 + Times(0, s + 1);
    assert Pending(w, left, k, x) == Queued(w, left, k, x, a) + 1;
    assert Pending(v, left1, k, x) == 1 + BusyAbove(v, left1, k, x, a);
    assert BusyAbove(v, left1, k, x, a) == Busy(v, left1, k, a);
  }

  /** The process at the other end of any other call that is completed. */
  lemma PartnerIs(w: System, act: Action, v: System, x: nat)
    requires Leads(w, act, v) && View(w, act, v) && x < |w.pc| && !Same(w, v, x) && Actor(act) != x
    ensures act.Call? && (act.e.Receive? || act.e.Send?)
    ensures act.e.Receive? ==> w.ipc.cell[x].status == Sending(act.e.p)
    ensures v.ipc.cell[x].status == Ready && v.pc[x].awaits == w.pc[x].awaits && v.pc[x].transfer == w.pc[x].transfer
    ensures act.e.Send? ==> act.e.dest == x && Accepts(w.ipc.cell[x], act.e.p)
  {
    assert Fits(w, x);
  }

  lemma PartnerRests(w: System, act: Action, v: System, x: nat)
    requires Leads(w, act, v) && View(w, act, v) && Layered(v) && x < |w.pc| && !Same(w, v, x) && Actor(act) != x
    ensures act.Call? && (act.e.Receive? || act.e.Send?)
    ensures act.e.Receive? ==> w.ipc.cell[x].status == Sending(act.e.p)
    ensures act.e.Send? ==> Accepts(w.ipc.cell[x], act.e.p)
    ensures !(act.e.Receive? && Rank(act.e.p) > Rank(x)) ==>
      v.ipc.cell[x].status == Ready && v.pc[x].awaits == NIL && !v.pc[x].transfer
  {
    PartnerIs(w, act, v, x);
    assert Fits(w, x);
  }

  lemma PartnerDown(w: System, left: seq<nat>, k: nat, act: Action, v: System, left1: seq<nat>, x: nat)
    requires Stepped(w, left, k, act, v, left1) && x < |left| && !Same(w, v, x) && Actor(act) != x
    ensures Pending(v, left1, k, x) < Pending(w, left, k, x) ||
            (Pending(v, left1, k, x) == 0 && Idle(w, x)) || w.ipc.cell[x].status == Ready
  {
    PartnerRests(w, act, v, x);
    if act.e.Receive? && Rank(act.e.p) > Rank(x) {
      RequestTaken(w, left, k, act, v, left1, x);
    } else {
      AtRest(v, left1, k, x);
      if !Idle(w, x) && w.ipc.cell[x].status != Ready {
        PendingPositive(w, left, k, x);
      }
    }
  }

  lemma PendingDown(w: System, left: seq<nat>, k: nat, act: Action, v: System, left1: seq<nat>, x: nat)
    requires Stepped(w, left, k, act, v, left1) && x < |left|
    requires Actor(act) == x ==> act.Call? && !act.e.Send?
    ensures Pending(v, left1, k, x) + (if Moves(w, act, x) && Pending(w, left, k, x) > 0 then 1 else 0) <=
            Pending(w, left, k, x)
    decreases 3 - Rank(x), 3
  {
    if Same(w, v, x) {
      UntouchedDown(w, left, k, act, v, left1, x);
    } else if Actor(act) == x {
      ActorDown(w, left, k, act, v, left1);
    } else {
      PartnerRests(w, act, v, x);
      PartnerDown(w, left, k, act, v, left1, x);
      assert w.ipc.cell[x].status != Ready;
    }
  }

  /** A server that starts an operation. */
  lemma StarterParts(w: System, left: seq<nat>, k: nat, act: Action, v: System, left1: seq<nat>)
    requires Stepped(w, left, k, act, v, left1) && Starts(act) && Rank(Actor(act)) > 0
    ensures var t := Actor(act);
            left1[t] == left[t] - 1 && v.pc[t].owes == w.pc[t].owes && w.ipc.cell[t].status == Ready &&
            w.pc[t].awaits == NIL && !w.pc[t].transfer
  {
    assert Fits(w, Actor(act));
    if Taker(w, act) != NIL {
      TakerAfter(w, act, v);
    }
  }

  lemma StarterDown(w: System, left: seq<nat>, k: nat, act: Action, v: System, left1: seq<nat>)
    requires Stepped(w, left, k, act, v, left1) && Starts(act) && Rank(Actor(act)) > 0
    ensures Busy(v, left1, k, Actor(act)) < Busy(w, left, k, Actor(act))
  {
    var t := Actor(act);
    var c := OpCost(|left|, k, Rank(t));
    StarterParts(w, left, k, act, v, left1);
    BusyIs(w, left, k, t, c);
    BusyIs(v, left1, k, t, c);
    PendingBound(v, left1, k, t);
    assert Times(left[t], c) == c + Times(left1[t], c);
  }

  /** A server that replies. */
  lemma ReplierDown(w: System, left: seq<nat>, k: nat, act: Action, v: System, left1: seq<nat>)
    requires Stepped(w, left, k, act, v, left1) && act.Call? && act.e.Send? && !Starts(act) && Rank(act.e.p) > 0
    ensures Busy(v, left1, k, act.e.p) < Busy(w, left, k, act.e.p)
  {
    var t := act.e.p;
    var c := OpCost(|left|, k, Rank(t));
    assert Fits(w, t) && Fits(v, t);
    AtRest(w, left, k, t);
    BusyIs(w, left, k, t, c);
    BusyIs(v, left1, k, t, c);
    assert left1[t] == left[t] && w.pc[t].owes != NIL && v.pc[t].owes == NIL;
    assert Pending(v, left1, k, t) <= 1;
  }

  /** The budget of a server that neither starts nor takes anything. */
  lemma BudgetStays(w: System, left: seq<nat>, k: nat, act: Action, v: System, left1: seq<nat>, t: nat)
    requires Steps(w, left, k, act, v, left1) && t < |left| && Taker(w, act) != t && !(Actor(act) == t && Starts(act))
    ensures left1[t] == left[t]
  {
  }

  /** Nobody else settles a server's debt. */
  lemma OwesStays(w: System, act: Action, v: System, t: nat)
    requires Leads(w, act, v) && View(w, act, v) && Layered(v) && t < |w.pc| && Taker(w, act) != t
    requires Actor(act) == t ==> act.Call? && !act.e.Send?
    ensures v.pc[t].owes == w.pc[t].owes && (Idle(w, t) ==> Idle(v, t))
  {
    assert Fits(w, t) && Fits(v, t) && Fits(w, Actor(act)) && Fits(w, TASK_HD);
  }

  /** Servers do not get further from their next request, except by taking one. */
  lemma BusyDown(w: System, left: seq<nat>, k: nat, act: Action, v: System, left1: seq<nat>, t: nat)
    requires Stepped(w, left, k, act, v, left1) && t < |left| && Rank(t) > 0 && Taker(w, act) != t
    ensures Busy(v, left1, k, t) + (if Moves(w, act, t) && !Idle(v, t) then 1 else 0) <= Busy(w, left, k, t)
    decreases 3 - Rank(t), 4
  {
    var c := OpCost(|left|, k, Rank(t));
    BusyIs(w, left, k, t, c);
    BusyIs(v, left1, k, t, c);
    if Actor(act) == t && Starts(act) {
      StarterDown(w, left, k, act, v, left1);
    } else if Actor(act) == t && act.Call? && act.e.Send? {
      ReplierDown(w, left, k, act, v, left1);
    } else {
      BudgetStays(w, left, k, act, v, left1, t);
      OwesStays(w, act, v, t);
      PendingDown(w, left, k, act, v, left1, t);
      if Moves(w, act, t) && !Idle(v, t) {
        PendingIfMoves(w, left, k, act, v, t);
      }
    }
  }

  /** A server that moves without sending anything, and is not idle then, was in an operation. */
  lemma PendingIfMoves(w: System, left: seq<nat>, k: nat, act: Action, v: System, t: nat)
    requires Good(w, left, k) && Leads(w, act, v) && View(w, act, v) && Layered(v) && t < |w.pc|
    requires Moves(w, act, t) && !Idle(v, t) && Taker(w, act) != t && (Actor(act) == t ==> act.Call? && !act.e.Send?)
    ensures Pending(w, left, k, t) > 0
  {
    assert Fits(w, t) && Fits(v, t);
    if w.ipc.cell[t].status == Ready {
      assert Actor(act) == t;
      assert Fits(w, TASK_HD);
      assert w.pc[t].awaits != NIL || w.pc[t].transfer;
    }
    PendingPositive(w, left, k, t);
  }

  // ---------------------------------------------------------------- until somebody moves

  /** A blocked process is only touched by the one it waits for. */
  lemma BlockedIsSafe(w: System, act: Action, v: System, z: nat)
    requires Leads(w, act, v) && View(w, act, v) && Layered(v) && z < |w.pc| && WaitsOn(w, z) != NIL
    ensures Same(w, v, z) || (Actor(act) == WaitsOn(w, z) && w.ipc.cell[Actor(act)].status == Ready &&
                              !(act.Call? && act.e.Store?))
  {
    assert Fits(w, z) && Fits(w, TASK_HD);
    if !Same(w, v, z) && Actor(act) != z {
      PartnerRests(w, act, v, z);
      assert Fits(w, Actor(act));
    }
  }

  lemma ReadyIsSafe(w: System, act: Action, v: System, z: nat)
    requires Leads(w, act, v) && View(w, act, v) && Layered(v) && z < |w.pc| && WaitsOn(w, z) == NIL && !Idle(w, z)
    requires Actor(act) == z ==> act.Call? && act.e.Store?
    ensures Same(w, v, z)
  {
    ActorInRange(w, act);
    assert Fits(w, z) && Fits(w, Actor(act));
    if !Same(w, v, z) {
      PartnerRests(w, act, v, z);
    }
  }

  /** As long as the process that has to move does not, nothing changes between it and `p`. */
  lemma {:induction false} MoverStays(w: System, act: Action, v: System, p: nat)
    requires Leads(w, act, v) && View(w, act, v) && Layered(v) && p < |w.pc| && !Idle(w, p) && !Moves(w, act, p)
    ensures Same(w, v, p) && !Idle(v, p) && Mover(v, p) == Mover(w, p)
    decreases Depth(w, p)
  {
    if WaitsOn(w, p) == NIL {
      ReadyIsSafe(w, act, v, p);
    } else {
      var u := WaitsOn(w, p);
      EdgeGoesDown(w, p);
      BlockedIsSafe(w, act, v, p);
      assert w.ipc.cell[u].status == Ready ==> Mover(w, u) == u;
      MoverStays(w, act, v, u);
    }
  }

  /** A process is in a request until it has the reply. */
  ghost predicate InRequest(w: System, p: nat)
    requires p < |w.pc| == |w.ipc.cell|
  {
    w.pc[p].awaits != NIL || (w.ipc.cell[p].status.Receiving? && w.ipc.cell[p].status.from >= 0)
  }

  /** Ready, and a server or in the middle of a library call. */
  ghost predicate Engaged(w: System, p: nat)
    requires p < |w.pc| == |w.ipc.cell|
  {
    w.ipc.cell[p].status == Ready && (Rank(p) > 0 || w.pc[p].awaits != NIL)
  }

  ghost predicate AwaitsDisk(w: System, p: nat)
    requires p < |w.ipc.cell|
  {
    p == TASK_HD && w.armed && w.ipc.cell[p].status == Receiving(INTERRUPT)
  }

  /** Who is waited for is a server, or in the middle of a library call. */
  lemma {:induction false} MoverIsEngaged(w: System, p: nat)
    requires Layered(w) && p < |w.pc| && !Idle(w, p)
    requires WaitsOn(w, p) != NIL || Engaged(w, p) || AwaitsDisk(w, p)
    ensures Engaged(w, Mover(w, p)) || AwaitsDisk(w, Mover(w, p))
    decreases Depth(w, p)
  {
    assert Fits(w, p);
    if WaitsOn(w, p) != NIL {
      var u := WaitsOn(w, p);
      EdgeGoesDown(w, p);
      assert Fits(w, u);
      MoverIsEngaged(w, u);
    }
  }

  /** A request ends in no other way than by the reply of the server that worked on it: the caller
      receives it from the blocked server, or the server hands it to the waiting caller. */
  lemma EndsWithReply(w: System, act: Action, v: System, p: nat)
    requires Leads(w, act, v) && View(w, act, v) && Layered(v) && p < |w.pc|
    requires InRequest(w, p) && !InRequest(v, p)
    ensures act.Call?
    ensures match act.e
            case Receive(q, src, _) =>
              q == p && src == w.pc[p].awaits && 0 <= src < |w.pc| && w.ipc.cell[src].status == Sending(p)
            case Send(u, d, _) => d == p && w.ipc.cell[p].status == Receiving(u) && w.pc[u].owes == p
            case _ => false
  {
    ActorInRange(w, act);
    assert Fits(w, p) && Fits(w, Actor(act)) && Fits(w, TASK_HD);
  }
}
