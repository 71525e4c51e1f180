/** What one call leaves behind, field by field: messages, buffers, statuses and queues. */
module Calls {
  import opened Processes
  import opened Rendezvous

  /** The message in the buffer at `addr` as the kernel passes it on: only its source is set. */
  function Signed(c: Cell, p: nat, addr: nat): Message {
    Load(c.mem, addr).(source := p)
  }

  /** A send: a receiver that waits for the sender or for anybody has the caller's message in its
      buffer and nothing else changed in its memory; otherwise the sender is blocked with it. */
  lemma SendEffect(a: Ipc, p: nat, d: nat, addr: nat)
    requires Invariant(a) && Callable(a, Send(p, d, addr)) && !Halts(a, Send(p, d, addr))
    ensures var b, me, you := Next(a, Send(p, d, addr)), a.cell[p], a.cell[d];
            var mem := me.mem[addr := Signed(me, p, addr)];
            |b.cell| == |a.cell| && (forall q :: 0 <= q < |a.cell| && q != p && q != d ==> b.cell[q] == a.cell[q]) &&
            if you.status == Receiving(p) || you.status == Receiving(ANY) then
              b.queue == a.queue && b.cell[p] == Cell(Ready, 0, me.hasInt, mem) &&
              b.cell[d] == Cell(Ready, 0, you.hasInt, you.mem[you.msg := Signed(me, p, addr)])
            else
              b.queue == a.queue[d := a.queue[d] + [p]] && b.cell[p] == Cell(Sending(d), addr, me.hasInt, mem) &&
              b.cell[d] == you
  {
  }

  /** The effect of a receive that takes the message of the blocked sender `f`. */
  ghost predicate TakesFrom(a: Ipc, b: Ipc, p: nat, addr: nat, f: nat) {
    |b.cell| == |a.cell| == |a.queue| && p < |a.cell| && f < |a.cell| && f != p && a.cell[f].status == Sending(p) &&
    var me := a.cell[p];
    b.cell[p] == me.(mem := me.mem[addr := Load(a.cell[f].mem, a.cell[f].msg)]) &&
    b.cell[f] == Cell(Ready, 0, a.cell[f].hasInt, a.cell[f].mem) &&
    (forall q :: 0 <= q < |a.cell| && q != p && q != f ==> b.cell[q] == a.cell[q]) &&
    exists i :: 0 <= i < |a.queue[p]| && TakenOut(a.queue, b.queue, p, i, f)
  }

  ghost predicate TakenOut(q: seq<seq<nat>>, r: seq<seq<nat>>, p: nat, i: int, f: nat)
    requires p < |q| && 0 <= i < |q[p]|
  {
    q[p][i] == f && r == q[p := q[p][..i] + q[p][i + 1..]]
  }

  /** A receive: a pending interrupt goes first if one was asked for; then the sender named, or
      from ANY the first in the queue; and if there is none the caller blocks. */
  lemma ReceiveEffect(a: Ipc, p: nat, src: int, addr: nat)
    requires Invariant(a) && Callable(a, Receive(p, src, addr)) && !Halts(a, Receive(p, src, addr))
    ensures var b, me := Next(a, Receive(p, src, addr)), a.cell[p];
            var mem := me.mem[addr := Signed(me, p, addr)];
            if me.hasInt && (src == ANY || src == INTERRUPT) then
              b == a.(cell := a.cell[p := Cell(Ready, 0, false, mem[addr := Load(mem, me.msg)])])
            else if src == ANY && a.queue[p] != [] then
              TakesFrom(a, b, p, addr, a.queue[p][0]) && b.queue[p] == a.queue[p][1..]
            else if 0 <= src < |a.cell| && a.cell[src].status == Sending(p) then TakesFrom(a, b, p, addr, src)
            else b == a.(cell := a.cell[p := Cell(Receiving(src), addr, me.hasInt, mem)])
  {
    var b, me := Next(a, Receive(p, src, addr)), a.cell[p];
    var f := Chosen(a, p, src);
    ChosenIsQueued(a, p, src);
    assert StatusOk(a, p) && QueueOk(a, p);
    if !(me.hasInt && (src == ANY || src == INTERRUPT)) && f != NIL {
      assert StatusOk(a, f);
      var i := IndexOf(a.queue[p], f);
      assert TakenOut(a.queue, b.queue, p, i, f);
      assert me.mem[addr := Signed(me, p, addr)][addr := Load(a.cell[f].mem, a.cell[f].msg)] ==
             me.mem[addr := Load(a.cell[f].mem, a.cell[f].msg)];
    }
  }

  /** An interrupt: whoever waits for one or for anybody gets its message, else it stays pending. */
  lemma InterruptEffect(a: Ipc, d: nat)
    requires Invariant(a) && d < |a.cell|
    ensures var b, c := Next(a, Interrupt(d)), a.cell[d];
            if c.status == Receiving(INTERRUPT) || c.status == Receiving(ANY) then
              b == a.(cell := a.cell[d := Cell(Ready, c.msg, false, c.mem[c.msg := Message(INTERRUPT, HARD_INT)])])
            else b == a.(cell := a.cell[d := c.(hasInt := true)])
  {
    assert !a.cell[d].hasInt || !AwaitsInterrupt(a.cell[d]);
  }

  // ---------------------------------------------------------------- when a call is refused

  /** `path` leads from `d` to `p` along blocked sends. */
  ghost predicate SendPath(a: Ipc, path: seq<nat>, d: nat, p: nat) {
    path != [] && path[0] == d && path[|path| - 1] == p &&
    forall i :: 0 <= i < |path| - 1 ==> Edge(a, path, i)
  }

  ghost predicate Edge(a: Ipc, path: seq<nat>, i: nat)
    requires i < |path| - 1
  {
    path[i] < |a.cell| && a.cell[path[i]].status == Sending(path[i + 1])
  }

  lemma {:induction false} PathOfHops(a: Ipc, d: nat, p: nat, k: nat) returns (path: seq<nat>)
    requires Hop(a, d, k) == p
    ensures SendPath(a, path, d, p)
    decreases k
  {
    if k == 0 {
      path := [d];
    } else {
      var rest := PathOfHops(a, a.cell[d].status.to, p, k - 1);
      path := [d] + rest;
      forall i | 0 <= i < |path| - 1 ensures Edge(a, path, i) {
        assert i > 0 ==> Edge(a, rest, i - 1);
      }
    }
  }

  lemma {:induction false} HopsOfPath(a: Ipc, path: seq<nat>, d: nat, p: nat)
    requires SendPath(a, path, d, p)
    ensures Hop(a, d, |path| - 1) == p
    decreases |path|
  {
    if |path| > 1 {
      assert Edge(a, path, 0);
      var rest := path[1..];
      forall i | 0 <= i < |rest| - 1 ensures Edge(a, rest, i) {
        assert Edge(a, path, i + 1);
      }
      HopsOfPath(a, rest, path[1], p);
    }
  }

  /** A send is refused if and only if its destination is, over a chain of blocked sends, blocked
      on the sender. */
  lemma RefusedWhen(a: Ipc, p: nat, d: nat, addr: nat)
    requires Invariant(a) && Callable(a, Send(p, d, addr))
    ensures Halts(a, Send(p, d, addr)) <==> exists path :: SendPath(a, path, d, p)
  {
    if Halts(a, Send(p, d, addr)) {
      var k: nat :| Hop(a, d, k) == p;
      var path := PathOfHops(a, d, p, k);
    }
    if path :| SendPath(a, path, d, p) {
      HopsOfPath(a, path, d, p);
    }
  }

  /** A receive fails an assertion if and only if no pending interrupt is taken, and either a sender
      is there and the caller's buffer pointer is stale, or none is and an interrupt is pending. */
  lemma ReceiveFailsWhen(a: Ipc, p: nat, src: int, addr: nat)
    requires Invariant(a) && Callable(a, Receive(p, src, addr))
    ensures var there := if src == ANY then a.queue[p] != []
                         else 0 <= src < |a.cell| && a.cell[src].status == Sending(p);
            Halts(a, Receive(p, src, addr)) <==>
              !(a.cell[p].hasInt && (src == ANY || src == INTERRUPT)) &&
              (if there then a.cell[p].msg != 0 else a.cell[p].hasInt)
  {
    assert QueueOk(a, p);
  }
}
