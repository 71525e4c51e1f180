/** The rendezvous protocol over values: who waits for whom, who is queued where, which message is in which buffer. */
module Rendezvous {
  import opened Processes

  datatype Status = Ready | Sending(to: nat) | Receiving(from: int)

  /** `msg` is the buffer pointer `p_msg`; a Ready process may hold a stale one. */
  datatype Cell = Cell(status: Status, msg: nat, hasInt: bool, mem: Memory)

  /** `queue[d]` lists the processes blocked sending to `d`, the longest waiting first. */
  datatype Ipc = Ipc(cell: seq<Cell>, queue: seq<seq<nat>>)

  datatype Event =
    | Send(p: nat, dest: nat, addr: nat)
    | Receive(p: nat, src: int, addr: nat)
    | Interrupt(dest: nat)
    | Store(p: nat, addr: nat, value: Message)

  // ---------------------------------------------------------------- steps

  predicate Accepts(c: Cell, s: int) {
    c.status == Receiving(s) || c.status == Receiving(ANY)
  }

  predicate AwaitsInterrupt(c: Cell) {
    c.status == Receiving(INTERRUPT) || c.status == Receiving(ANY)
  }

  function StoreAt(a: Ipc, p: nat, addr: nat, value: Message): Ipc
    requires p < |a.cell|
  {
    a.(cell := a.cell[p := a.cell[p].(mem := a.cell[p].mem[addr := value])])
  }

  /** The kernel writes the caller's number into its message buffer. */
  function Stamp(a: Ipc, p: nat, addr: nat): Ipc
    requires p < |a.cell|
  {
    StoreAt(a, p, addr, Load(a.cell[p].mem, addr).(source := p))
  }

  function Post(a: Ipc, s: nat, d: nat, m: nat): Ipc
    requires s < |a.cell| == |a.queue| && d < |a.cell|
  {
    if Accepts(a.cell[d], s) then
      var copy := Load(a.cell[s].mem, m);
      var dest := a.cell[d];
      a.(cell := a.cell[s := a.cell[s].(msg := 0)]
                       [d := dest.(status := Ready, msg := 0, mem := dest.mem[dest.msg := copy])])
    else
      Ipc(a.cell[s := a.cell[s].(status := Sending(d), msg := m)], a.queue[d := a.queue[d] + [s]])
  }

  predicate TakesInterrupt(a: Ipc, r: nat, src: int)
    requires r < |a.cell|
  {
    a.cell[r].hasInt && (src == ANY || src == INTERRUPT)
  }

  /** The blocked sender that a receive by `r` from `src` would serve, or NIL. */
  function Chosen(a: Ipc, r: nat, src: int): (f: int)
    requires r < |a.cell| == |a.queue|
  {
    if src == ANY then if a.queue[r] == [] then NIL else a.queue[r][0]
    else if 0 <= src < |a.cell| && a.cell[src].status == Sending(r) then src
    else NIL
  }

  ghost predicate TakeDefined(a: Ipc, r: nat, src: int) {
    r < |a.cell| == |a.queue| &&
    var f := Chosen(a, r, src);
    f == NIL || (0 <= f < |a.cell| && f in a.queue[r])
  }

  ghost function Take(a: Ipc, r: nat, src: int, m: nat): Ipc
    requires TakeDefined(a, r, src)
  {
    var me := a.cell[r];
    if TakesInterrupt(a, r, src) then
      a.(cell := a.cell[r := me.(hasInt := false, msg := 0, mem := me.mem[m := Load(me.mem, me.msg)])])
    else
      var f := Chosen(a, r, src);
      if f == NIL then
        a.(cell := a.cell[r := me.(status := Receiving(src), msg := m)])
      else
        var copy := Load(a.cell[f].mem, a.cell[f].msg);
        Ipc(a.cell[r := me.(mem := me.mem[m := copy])][f := a.cell[f].(status := Ready, msg := 0)],
            a.queue[r := Without(a.queue[r], f)])
  }

  function Strike(a: Ipc, d: nat): Ipc
    requires d < |a.cell|
  {
    var c := a.cell[d];
    if AwaitsInterrupt(c) then
      a.(cell := a.cell[d := c.(status := Ready, hasInt := false,
                                mem := c.mem[c.msg := Message(INTERRUPT, HARD_INT)])])
    else
      a.(cell := a.cell[d := c.(hasInt := true)])
  }

  // ---------------------------------------------------------------- the SENDING graph

  /** The process reached from `p` after `k` SENDING edges, or NIL when the chain ends sooner. */
  ghost function Hop(a: Ipc, p: int, k: nat): int
    decreases k
  {
    if k == 0 then p
    else if 0 <= p < |a.cell| && a.cell[p].status.Sending? then Hop(a, a.cell[p].status.to, k - 1)
    else NIL
  }

  ghost predicate Reaches(a: Ipc, p: int, q: int) {
    exists k: nat :: Hop(a, p, k) == q
  }

  ghost predicate Ranked(a: Ipc, rank: seq<nat>) {
    |rank| == |a.cell| && forall p :: 0 <= p < |a.cell| ==> EdgeDescends(a, rank, p)
  }

  ghost predicate EdgeDescends(a: Ipc, rank: seq<nat>, p: nat)
    requires p < |a.cell| == |rank|
  {
    a.cell[p].status.Sending? ==>
      a.cell[p].status.to < |a.cell| && rank[a.cell[p].status.to] < rank[p]
  }

  ghost predicate Acyclic(a: Ipc) {
    exists rank :: Ranked(a, rank)
  }

  // ---------------------------------------------------------------- when a call may be made, and when it halts

  /** What the kernel demands of the caller of `e`. */
  ghost predicate Callable(a: Ipc, e: Event) {
    match e
    case Send(p, d, addr) =>
      p < |a.cell| && d < |a.cell| && p != d && addr != 0 && a.cell[p].status == Ready
    case Receive(p, src, addr) =>
      p < |a.cell| && addr != 0 && a.cell[p].status == Ready &&
      (src == ANY || src == INTERRUPT || (0 <= src < |a.cell| && src != p))
    case Interrupt(d) => d < |a.cell|
    case Store(p, addr, value) => p < |a.cell| && a.cell[p].status == Ready
  }

  /** A send is refused as a deadlock; a receive fails the kernel's own assertions on a
      stale buffer pointer, or on a pending interrupt while blocking on a named sender. */
  ghost predicate Halts(a: Ipc, e: Event)
    requires |a.cell| == |a.queue|
    requires Callable(a, e)
  {
    match e
    case Send(p, d, addr) => Reaches(a, d, p)
    case Receive(p, src, addr) =>
      !TakesInterrupt(a, p, src) &&
      (if Chosen(a, p, src) != NIL then a.cell[p].msg != 0 else a.cell[p].hasInt)
    case _ => false
  }

  // ---------------------------------------------------------------- the joint invariant

  ghost predicate StatusOk(a: Ipc, p: nat)
    requires p < |a.cell| == |a.queue|
  {
    var c := a.cell[p];
    match c.status
    case Ready => true
    case Sending(d) => d < |a.cell| && d != p && c.msg != 0 && p in a.queue[d]
    case Receiving(f) =>
      c.msg != 0 && (f == ANY || f == INTERRUPT || (0 <= f < |a.cell| && f != p))
  }

  ghost predicate QueueOk(a: Ipc, d: nat)
    requires d < |a.queue|
  {
    Distinct(a.queue[d]) &&
    forall i :: 0 <= i < |a.queue[d]| ==>
      a.queue[d][i] < |a.cell| && a.cell[a.queue[d][i]].status == Sending(d)
  }

  /** Nobody is blocked sending to a process that is blocked ready to take the message. */
  ghost predicate NoMissedRendezvous(a: Ipc) {
    forall s :: 0 <= s < |a.cell| ==> !Missed(a, s)
  }

  ghost predicate Missed(a: Ipc, s: nat)
    requires s < |a.cell|
  {
    a.cell[s].status.Sending? && a.cell[s].status.to < |a.cell| && Accepts(a.cell[a.cell[s].status.to], s)
  }

  /** A process waiting for an interrupt has none pending. */
  ghost predicate NoLostInterrupt(a: Ipc) {
    forall p :: 0 <= p < |a.cell| && AwaitsInterrupt(a.cell[p]) ==> !a.cell[p].hasInt
  }

  ghost predicate Invariant(a: Ipc) {
    |a.cell| == |a.queue| &&
    (forall p :: 0 <= p < |a.cell| ==> StatusOk(a, p)) &&
    (forall d :: 0 <= d < |a.cell| ==> QueueOk(a, d)) &&
    NoMissedRendezvous(a) && NoLostInterrupt(a) && Acyclic(a)
  }

  // ---------------------------------------------------------------- acyclicity

  lemma {:induction false} HopAdd(a: Ipc, p: int, j: nat, k: nat)
    ensures Hop(a, Hop(a, p, j), k) == Hop(a, p, j + k)
    decreases j
  {
    if j == 0 {
    } else if 0 <= p < |a.cell| && a.cell[p].status.Sending? {
      HopAdd(a, a.cell[p].status.to, j - 1, k);
    } else {
      assert Hop(a, NIL, k) == NIL;
    }
  }

  lemma {:induction false} HopDescends(a: Ipc, rank: seq<nat>, p: nat, k: nat)
    requires Ranked(a, rank) && p < |a.cell|
    ensures var q := Hop(a, p, k); q == NIL || (0 <= q < |a.cell| && rank[q] + k <= rank[p])
    decreases k
  {
    assert EdgeDescends(a, rank, p);
    if k != 0 && a.cell[p].status.Sending? {
      HopDescends(a, rank, a.cell[p].status.to, k - 1);
    }
  }

  /** No chain of blocked senders closes on itself, and every chain ends. */
  lemma ChainsEnd(a: Ipc)
    requires Acyclic(a)
    ensures forall p, k: nat :: 0 <= p < |a.cell| && k > 0 ==> Hop(a, p, k) != p
    ensures forall p :: 0 <= p < |a.cell| ==> Reaches(a, p, NIL)
  {
    var rank :| Ranked(a, rank);
    forall p, k: nat | 0 <= p < |a.cell| && k > 0
      ensures Hop(a, p, k) != p
    {
      HopDescends(a, rank, p, k);
    }
    forall p | 0 <= p < |a.cell|
      ensures Reaches(a, p, NIL)
    {
      HopDescends(a, rank, p, rank[p] + 1);
      assert Hop(a, p, rank[p] + 1) == NIL;
    }
  }

  /** A new edge from a process without one keeps the graph acyclic exactly when its
      target does not already reach its source. */
  lemma EdgeKeepsAcyclic(a: Ipc, b: Ipc, s: nat, d: nat)
    requires Acyclic(a)
    requires s < |a.cell| == |b.cell| && d < |a.cell| && s != d
    requires a.cell[s].status == Ready && b.cell[s].status == Sending(d)
    requires forall p :: 0 <= p < |a.cell| && p != s ==> b.cell[p].status == a.cell[p].status
    ensures Acyclic(b) <==> !Reaches(a, d, s)
  {
    if Reaches(a, d, s) {
      var k: nat :| Hop(a, d, k) == s;
      HopSame(a, b, s, d, k);
      assert Hop(b, s, k + 1) == s;
      if Acyclic(b) {
        ChainsEnd(b);
        assert false;
      }
    } else {
      var rank :| Ranked(a, rank);
      var lift := seq(|a.cell|, p requires 0 <= p < |a.cell| =>
        if Reaches(a, p, s) then rank[p] + rank[d] + 1 else rank[p]);
      forall p | 0 <= p < |b.cell|
        ensures EdgeDescends(b, lift, p)
      {
        assert EdgeDescends(a, rank, p);
        if p == s {
          assert Hop(a, s, 0) == s;
        } else if a.cell[p].status.Sending? {
          var q := a.cell[p].status.to;
          if Reaches(a, q, s) {
            var k: nat :| Hop(a, q, k) == s;
            assert Hop(a, p, k + 1) == s;
          }
          if Reaches(a, p, s) {
            var k: nat :| Hop(a, p, k) == s;
            assert Hop(a, q, k - 1) == s;
          }
        }
      }
      assert Ranked(b, lift);
    }
  }

  /** Up to the first visit of `s`, changing only the edge out of `s` changes no hop. */
  lemma {:induction false} HopSame(a: Ipc, b: Ipc, s: nat, p: nat, k: nat)
    requires s < |a.cell| == |b.cell| && p < |a.cell|
    requires a.cell[s].status == Ready
    requires forall q :: 0 <= q < |a.cell| && q != s ==> b.cell[q].status == a.cell[q].status
    requires Hop(a, p, k) == s
    ensures Hop(b, p, k) == s
    decreases k
  {
    if k != 0 && a.cell[p].status.to < |a.cell| {
      HopSame(a, b, s, a.cell[p].status.to, k - 1);
    }
  }

  lemma SameReach(a: Ipc, b: Ipc, p: nat, s: nat)
    requires s < |a.cell| == |b.cell| && p < |a.cell| && a.cell[s].status == Ready
    requires forall q :: 0 <= q < |a.cell| ==> b.cell[q].status == a.cell[q].status
    ensures Reaches(a, p, s) <==> Reaches(b, p, s)
  {
    if Reaches(a, p, s) {
      var k: nat :| Hop(a, p, k) == s;
      HopSame(a, b, s, p, k);
    }
    if Reaches(b, p, s) {
      var k: nat :| Hop(b, p, k) == s;
      HopSame(b, a, s, p, k);
    }
  }

  lemma FewerEdgesAcyclic(a: Ipc, b: Ipc)
    requires Acyclic(a) && |a.cell| == |b.cell|
    requires forall p :: 0 <= p < |a.cell| && b.cell[p].status.Sending? ==> b.cell[p].status == a.cell[p].status
    ensures Acyclic(b)
  {
    var rank :| Ranked(a, rank);
    forall p | 0 <= p < |b.cell| ensures EdgeDescends(b, rank, p) {
      assert EdgeDescends(a, rank, p);
    }
    assert Ranked(b, rank);
  }

  // ---------------------------------------------------------------- every step keeps the invariant

  lemma StoreKeeps(a: Ipc, p: nat, addr: nat, value: Message)
    requires Invariant(a) && p < |a.cell|
    ensures Invariant(StoreAt(a, p, addr, value))
  {
    var b := StoreAt(a, p, addr, value);
    FewerEdgesAcyclic(a, b);
    assert forall q :: 0 <= q < |a.cell| ==> b.cell[q].status == a.cell[q].status;
    forall q | 0 <= q < |b.cell| ensures StatusOk(b, q) && !Missed(b, q) {
      assert StatusOk(a, q) && !Missed(a, q);
    }
    forall d | 0 <= d < |b.cell| ensures QueueOk(b, d) { assert QueueOk(a, d); }
  }

  lemma PostKeeps(a: Ipc, s: nat, d: nat, m: nat)
    requires Invariant(a) && Callable(a, Send(s, d, m)) && !Reaches(a, d, s)
    ensures Invariant(Post(a, s, d, m))
  {
    var b := Post(a, s, d, m);
    assert StatusOk(a, s) && StatusOk(a, d);
    if Accepts(a.cell[d], s) {
      FewerEdgesAcyclic(a, b);
    } else {
      EdgeKeepsAcyclic(a, b, s, d);
    }
    forall q | 0 <= q < |b.cell| ensures StatusOk(b, q) && !Missed(b, q) {
      assert StatusOk(a, q) && !Missed(a, q);
    }
    forall e | 0 <= e < |b.cell| ensures QueueOk(b, e) { assert QueueOk(a, e); }
  }

  lemma StampKeeps(a: Ipc, p: nat, addr: nat)
    requires Invariant(a) && p < |a.cell|
    ensures Invariant(Stamp(a, p, addr))
  {
    StoreKeeps(a, p, addr, Load(a.cell[p].mem, addr).(source := p));
  }

  /** A receive never breaks the preconditions of `Take`: the chosen sender is in the queue. */
  lemma ChosenIsQueued(a: Ipc, r: nat, src: int)
    requires Invariant(a) && r < |a.cell|
    ensures var f := Chosen(a, r, src);
            f == NIL || (0 <= f < |a.cell| && f in a.queue[r] && a.cell[f].status == Sending(r))
    ensures Chosen(a, r, src) == NIL && src == ANY ==> forall s :: 0 <= s < |a.cell| ==> a.cell[s].status != Sending(r)
  {
    assert QueueOk(a, r);
    forall s | 0 <= s < |a.cell| && a.cell[s].status == Sending(r)
      ensures s in a.queue[r]
    {
      assert StatusOk(a, s);
    }
  }

  lemma WithoutParts(q: seq<nat>, x: nat)
    requires x in q && Distinct(q)
    ensures Distinct(Without(q, x)) && |Without(q, x)| == |q| - 1
    ensures forall y :: y in Without(q, x) <==> y in q && y != x
  {
  }

  lemma TakeQueues(a: Ipc, r: nat, src: int, m: nat, d: nat)
    requires Invariant(a) && Callable(a, Receive(r, src, m)) && TakeDefined(a, r, src) && d < |a.cell|
    ensures d < |Take(a, r, src, m).queue| && QueueOk(Take(a, r, src, m), d)
  {
    var f, b := Chosen(a, r, src), Take(a, r, src, m);
    assert QueueOk(a, r) && QueueOk(a, d);
    if !TakesInterrupt(a, r, src) && f != NIL {
      WithoutParts(a.queue[r], f);
    }
    forall i | 0 <= i < |b.queue[d]|
      ensures b.queue[d][i] < |b.cell| && b.cell[b.queue[d][i]].status == Sending(d)
    {
      assert b.queue[d][i] in b.queue[d];
      assert b.queue[d][i] in a.queue[d];
    }
  }

  lemma TakeStatuses(a: Ipc, r: nat, src: int, m: nat, q: nat)
    requires Invariant(a) && Callable(a, Receive(r, src, m)) && TakeDefined(a, r, src) && q < |a.cell|
    ensures var b := Take(a, r, src, m); |b.cell| == |b.queue| == |a.cell| && StatusOk(b, q) && !Missed(b, q)
  {
    ChosenIsQueued(a, r, src);
    var f := Chosen(a, r, src);
    assert QueueOk(a, r) && StatusOk(a, q) && !Missed(a, q);
    if !TakesInterrupt(a, r, src) && f != NIL {
      WithoutParts(a.queue[r], f);
    }
  }

  lemma TakeKeeps(a: Ipc, r: nat, src: int, m: nat)
    requires Invariant(a) && Callable(a, Receive(r, src, m))
    ensures TakeDefined(a, r, src)
    ensures Invariant(Take(a, r, src, m))
  {
    ChosenIsQueued(a, r, src);
    var b := Take(a, r, src, m);
    FewerEdgesAcyclic(a, b);
    forall q | 0 <= q < |b.cell| ensures StatusOk(b, q) && !Missed(b, q) {
      TakeStatuses(a, r, src, m, q);
    }
    forall d | 0 <= d < |b.cell| ensures QueueOk(b, d) {
      TakeQueues(a, r, src, m, d);
    }
  }

  lemma StrikeKeeps(a: Ipc, d: nat)
    requires Invariant(a) && d < |a.cell|
    ensures Invariant(Strike(a, d))
  {
    var b := Strike(a, d);
    FewerEdgesAcyclic(a, b);
    forall q | 0 <= q < |b.cell| ensures StatusOk(b, q) && !Missed(b, q) {
      assert StatusOk(a, q) && !Missed(a, q);
    }
    forall e | 0 <= e < |b.cell| ensures QueueOk(b, e) { assert QueueOk(a, e); }
  }

  ghost function Next(a: Ipc, e: Event): (b: Ipc)
    requires Invariant(a) && Callable(a, e)
    ensures |b.cell| == |a.cell|
  {
    match e
    case Send(p, d, addr) => Post(Stamp(a, p, addr), p, d, addr)
    case Receive(p, src, addr) =>
      var b := Stamp(a, p, addr);
      StampKeeps(a, p, addr); ChosenIsQueued(b, p, src);
      Take(b, p, src, addr)
    case Interrupt(d) => Strike(a, d)
    case Store(p, addr, value) => StoreAt(a, p, addr, value)
  }

  /** Whatever the callers do, each call that does not stop the system keeps the invariant. */
  lemma StepKeeps(a: Ipc, e: Event)
    requires Invariant(a) && Callable(a, e) && !Halts(a, e)
    ensures Invariant(Next(a, e)) && |Next(a, e).cell| == |a.cell|
  {
    match e
    case Send(p, d, addr) =>
      var b := Stamp(a, p, addr);
      StampKeeps(a, p, addr);
      SameReach(a, b, d, p);
      PostKeeps(b, p, d, addr);
    case Receive(p, src, addr) =>
      StampKeeps(a, p, addr);
      TakeKeeps(Stamp(a, p, addr), p, src, addr);
    case Interrupt(d) => StrikeKeeps(a, d);
    case Store(p, addr, value) => StoreKeeps(a, p, addr, value);
  }

  /** Stamping the buffer changes neither what a call does to the wait graph nor whether it halts. */
  lemma StampThenStep(a: Ipc, e: Event, addr: nat)
    requires Invariant(a) && Callable(a, e)
    requires (e.Send? && addr == e.addr) || (e.Receive? && addr == e.addr)
    ensures var b := Stamp(a, e.p, addr);
            Invariant(b) && Callable(b, e) &&
            match e
            case Send(p, d, _) => (Halts(a, e) <==> Reaches(b, d, p)) && Next(a, e) == Post(b, p, d, addr)
            case Receive(p, src, _) =>
              (Halts(a, e) <==> Halts(b, e)) && TakeDefined(b, p, src) && Next(a, e) == Take(b, p, src, addr)
            case _ => true
  {
    var b := Stamp(a, e.p, addr);
    StampKeeps(a, e.p, addr);
    match e
    case Send(p, d, _) => SameReach(a, b, d, p);
    case Receive(p, src, _) => ChosenIsQueued(b, p, src);
    case _ =>
  }

  // ---------------------------------------------------------------- the initial state

  function Initial(n: nat): Ipc {
    Ipc(seq(n, _ => Cell(Ready, 0, false, map[])), seq(n, _ => []))
  }

  lemma InitialInvariant(n: nat)
    ensures Invariant(Initial(n))
  {
    var a := Initial(n);
    assert Ranked(a, seq(n, _ => 0));
  }
}
