/** Runs of the rendezvous machine: what has been sent, what has been delivered, and that
    over every run the two agree. */
module Delivery {
  import opened Processes
  import opened Rendezvous

  datatype Letter = Letter(src: nat, dst: nat, msg: Message)

  /** Letter `ticket` arrived at `to`, whose buffer then held `msg`. */
  datatype Arrival = Arrival(ticket: nat, to: nat, msg: Message)

  /** `ticket[p]` numbers the latest letter of `p`; `woken[p]` says that the last IPC call
      of `p` to complete was completed by an interrupt. */
  datatype Log = Log(sent: seq<Letter>, arrived: seq<Arrival>, ticket: seq<nat>, woken: seq<bool>)

  datatype World = World(ipc: Ipc, log: Log)

  ghost predicate Enabled(w: World, e: Event) {
    Callable(w.ipc, e) && |w.ipc.cell| == |w.ipc.queue| && !Halts(w.ipc, e)
  }

  /** What is logged of a send is the message as the caller has it before the call, under the
      caller's number; what is logged of an arrival is the receiver's buffer after the call. */
  ghost function Record(a: Ipc, l: Log, e: Event): Log
    requires Invariant(a) && Callable(a, e) && |l.ticket| == |l.woken| == |a.cell|
  {
    match e
    case Send(p, d, addr) =>
      var l1 := l.(sent := l.sent + [Letter(p, d, Load(a.cell[p].mem, addr).(source := p))],
                   ticket := l.ticket[p := |l.sent|]);
      if Accepts(a.cell[d], p) then
        l1.(arrived := l.arrived + [Arrival(|l.sent|, d, Load(Next(a, e).cell[d].mem, a.cell[d].msg))],
            woken := l.woken[p := false][d := false])
      else l1.(woken := l.woken[p := false])
    case Receive(p, src, addr) =>
      var f := Chosen(a, p, src);
      if TakesInterrupt(a, p, src) || f < 0 || f >= |a.cell| then l.(woken := l.woken[p := false])
      else l.(arrived := l.arrived + [Arrival(l.ticket[f], p, Load(Next(a, e).cell[p].mem, addr))],
              woken := l.woken[p := false][f := false])
    case Interrupt(d) => if AwaitsInterrupt(a.cell[d]) then l.(woken := l.woken[d := true]) else l
    case Store(_, _, _) => l
  }

  // ---------------------------------------------------------------- the log invariant

  ghost predicate Pending(w: World, s: nat, t: nat) {
    s < |w.ipc.cell| == |w.log.ticket| && w.ipc.cell[s].status.Sending? && w.log.ticket[s] == t
  }

  /** A blocked sender's letter is still in its buffer, unread. */
  ghost predicate PendingOk(w: World, s: nat)
    requires s < |w.ipc.cell| == |w.log.ticket|
  {
    var c := w.ipc.cell[s];
    c.status.Sending? ==>
      var t := w.log.ticket[s];
      t < |w.log.sent| && w.log.sent[t] == Letter(s, c.status.to, Load(c.mem, c.msg)) &&
      forall i :: 0 <= i < |w.log.arrived| ==> w.log.arrived[i].ticket != t
  }

  ghost predicate ArrivalOk(l: Log, i: nat)
    requires i < |l.arrived|
  {
    var r := l.arrived[i];
    r.ticket < |l.sent| && r.to == l.sent[r.ticket].dst && r.msg == l.sent[r.ticket].msg &&
    forall j :: 0 <= j < i ==> l.arrived[j].ticket != r.ticket
  }

  /** Letter `t` names its true sender and is accounted for: it arrived, or its sender is blocked. */
  ghost predicate LetterOk(w: World, t: nat)
    requires t < |w.log.sent|
  {
    w.log.sent[t].msg.source == w.log.sent[t].src &&
    (Arrived(w.log, t) || Pending(w, w.log.sent[t].src, t))
  }

  ghost predicate Arrived(l: Log, t: nat) {
    exists i :: 0 <= i < |l.arrived| && l.arrived[i].ticket == t
  }

  /** Whoever queued first is first in line. */
  ghost predicate LineOk(w: World, d: nat)
    requires d < |w.ipc.queue|
  {
    Ascending(w.log.ticket, w.ipc.queue[d])
  }

  ghost predicate Ascending(ticket: seq<nat>, q: seq<nat>) {
    forall i, j :: 0 <= i < j < |q| && q[i] < |ticket| && q[j] < |ticket| ==> ticket[q[i]] < ticket[q[j]]
  }

  lemma AscendingWithout(ticket: seq<nat>, q: seq<nat>, f: nat)
    requires Ascending(ticket, q) && f in q
    ensures Ascending(ticket, Without(q, f))
  {
  }

  /** A ready process holds a stale buffer pointer exactly if an interrupt completed its last call. */
  ghost predicate StaleOk(w: World, p: nat)
    requires p < |w.ipc.cell| == |w.log.woken|
  {
    w.ipc.cell[p].status == Ready ==> (w.ipc.cell[p].msg != 0 <==> w.log.woken[p])
  }

  ghost predicate Good(w: World) {
    Invariant(w.ipc) && |w.log.ticket| == |w.log.woken| == |w.ipc.cell| &&
    (forall s :: 0 <= s < |w.ipc.cell| ==> PendingOk(w, s)) &&
    (forall i :: 0 <= i < |w.log.arrived| ==> ArrivalOk(w.log, i)) &&
    (forall t :: 0 <= t < |w.log.sent| ==> LetterOk(w, t)) &&
    (forall d :: 0 <= d < |w.ipc.cell| ==> LineOk(w, d)) &&
    (forall p :: 0 <= p < |w.ipc.cell| ==> StaleOk(w, p))
  }

  ghost function Step(w: World, e: Event): World
    requires Good(w) && Enabled(w, e)
  {
    World(Next(w.ipc, e), Record(w.ipc, w.log, e))
  }

  lemma SendKeepsGood(w: World, p: nat, d: nat, addr: nat)
    requires Good(w) && Enabled(w, Send(p, d, addr))
    ensures Good(Step(w, Send(p, d, addr)))
  {
    var e := Send(p, d, addr);
    var v := Step(w, e);
    var n := |w.log.sent|;
    StepKeeps(w.ipc, e);
    assert StatusOk(w.ipc, p) && StatusOk(w.ipc, d);
    forall i | 0 <= i < |w.log.arrived| ensures w.log.arrived[i].ticket < n {
      assert ArrivalOk(w.log, i);
    }
    forall s | 0 <= s < |v.ipc.cell| ensures PendingOk(v, s) && StaleOk(v, s) {
      assert PendingOk(w, s) && StaleOk(w, s);
    }
    forall i | 0 <= i < |v.log.arrived| ensures ArrivalOk(v.log, i) {
      assert i < |w.log.arrived| ==> ArrivalOk(w.log, i);
    }
    forall t | 0 <= t < |v.log.sent| ensures LetterOk(v, t) {
      if t == n {
        if Accepts(w.ipc.cell[d], p) {
          assert v.log.arrived[|w.log.arrived|].ticket == n;
        } else {
          assert Pending(v, p, n);
        }
      } else {
        assert LetterOk(w, t);
        if Arrived(w.log, t) {
          var i :| 0 <= i < |w.log.arrived| && w.log.arrived[i].ticket == t;
          assert v.log.arrived[i].ticket == t;
        }
      }
    }
    forall x | 0 <= x < |v.ipc.cell| ensures LineOk(v, x) {
      assert LineOk(w, x) && QueueOk(w.ipc, x);
      forall i | 0 <= i < |w.ipc.queue[x]| ensures w.log.ticket[w.ipc.queue[x][i]] < n {
        assert PendingOk(w, w.ipc.queue[x][i]);
      }
    }
  }

  ghost predicate Serves(a: Ipc, e: Event)
    requires |a.cell| == |a.queue| && Callable(a, e)
  {
    e.Receive? && !TakesInterrupt(a, e.p, e.src) && Chosen(a, e.p, e.src) >= 0
  }

  lemma ServeKeepsGood(w: World, p: nat, src: int, addr: nat)
    requires Good(w) && Enabled(w, Receive(p, src, addr)) && Serves(w.ipc, Receive(p, src, addr))
    ensures Good(Step(w, Receive(p, src, addr)))
  {
    var v := Step(w, Receive(p, src, addr));
    StepKeeps(w.ipc, Receive(p, src, addr));
    ChosenIsQueued(w.ipc, p, src);
    var f: nat := Chosen(w.ipc, p, src);
    assert StatusOk(w.ipc, p) && StaleOk(w, p) && PendingOk(w, f);
    forall s | 0 <= s < |v.ipc.cell| ensures PendingOk(v, s) && StaleOk(v, s) {
      assert PendingOk(w, s) && StaleOk(w, s);
    }
    forall i | 0 <= i < |v.log.arrived| ensures ArrivalOk(v.log, i) {
      assert i < |w.log.arrived| ==> ArrivalOk(w.log, i);
    }
    forall t | 0 <= t < |v.log.sent| ensures LetterOk(v, t) {
      ServedLetter(w, v, f, t);
    }
    forall x | 0 <= x < |v.ipc.cell| ensures LineOk(v, x) {
      assert LineOk(w, x);
      if x == p {
        AscendingWithout(w.log.ticket, w.ipc.queue[x], f);
      }
    }
  }

  lemma ServedLetter(w: World, v: World, f: nat, t: nat)
    requires t < |w.log.sent| && v.log.sent == w.log.sent && LetterOk(w, t)
    requires |w.ipc.cell| == |v.ipc.cell| == |w.log.ticket| && v.log.ticket == w.log.ticket && f < |w.log.ticket|
    requires |v.log.arrived| == |w.log.arrived| + 1 && v.log.arrived[..|w.log.arrived|] == w.log.arrived
    requires v.log.arrived[|w.log.arrived|].ticket == w.log.ticket[f]
    requires forall s :: 0 <= s < |w.ipc.cell| && s != f && w.ipc.cell[s].status.Sending? ==>
      v.ipc.cell[s].status.Sending?
    ensures LetterOk(v, t)
  {
  }

  lemma OtherStepKeepsGood(w: World, e: Event)
    requires Good(w) && Enabled(w, e) && !e.Send? && !Serves(w.ipc, e)
    ensures Good(Step(w, e))
  {
    var v := Step(w, e);
    StepKeeps(w.ipc, e);
    if e.Receive? {
      ChosenIsQueued(w.ipc, e.p, e.src);
    }
    forall s | 0 <= s < |v.ipc.cell| ensures PendingOk(v, s) && StaleOk(v, s) && LineOk(v, s) {
      assert PendingOk(w, s) && StaleOk(w, s) && LineOk(w, s) && StatusOk(w.ipc, s);
    }
    forall i | 0 <= i < |v.log.arrived| ensures ArrivalOk(v.log, i) {
      assert ArrivalOk(w.log, i);
    }
    forall t | 0 <= t < |v.log.sent| ensures LetterOk(v, t) {
      assert LetterOk(w, t);
    }
  }

  lemma StepKeepsGood(w: World, e: Event)
    requires Good(w) && Enabled(w, e)
    ensures Good(Step(w, e)) && |Step(w, e).ipc.cell| == |w.ipc.cell|
  {
    StepKeeps(w.ipc, e);
    match e
    case Send(p, d, addr) => SendKeepsGood(w, p, d, addr);
    case Receive(p, src, addr) =>
      if Serves(w.ipc, e) { ServeKeepsGood(w, p, src, addr); } else { OtherStepKeepsGood(w, e); }
    case _ => OtherStepKeepsGood(w, e);
  }

  // ---------------------------------------------------------------- runs

  function Start(n: nat): World {
    World(Initial(n), Log([], [], seq(n, _ => 0), seq(n, _ => false)))
  }

  ghost predicate Legal(w: World, es: seq<Event>)
    requires Good(w)
    decreases |es|
  {
    es == [] || (Enabled(w, es[0]) && (StepKeepsGood(w, es[0]); Legal(Step(w, es[0]), es[1..])))
  }

  /** The world after a run of calls that all return or block; it is good again. */
  ghost function After(w: World, es: seq<Event>): (v: World)
    requires Good(w) && Legal(w, es)
    ensures Good(v) && |v.ipc.cell| == |w.ipc.cell|
    decreases |es|
  {
    if es == [] then w else StepKeepsGood(w, es[0]); After(Step(w, es[0]), es[1..])
  }

  lemma AfterCons(w: World, e: Event, es: seq<Event>)
    requires Good(w) && Enabled(w, e)
    ensures Good(Step(w, e))
    ensures Legal(w, [e] + es) <==> Legal(Step(w, e), es)
    ensures Legal(Step(w, e), es) ==> After(w, [e] + es) == After(Step(w, e), es)
  {
    StepKeepsGood(w, e);
    assert ([e] + es)[1..] == es;
  }

  lemma StartIsGood(n: nat)
    ensures Good(Start(n))
  {
    InitialInvariant(n);
  }

  // ---------------------------------------------------------------- what every run guarantees

  function Sends(es: seq<Event>): nat {
    if es == [] then 0 else (if es[0].Send? then 1 else 0) + Sends(es[1..])
  }

  lemma {:induction false} EverySendIsLogged(w: World, es: seq<Event>)
    requires Good(w) && Legal(w, es)
    ensures |After(w, es).log.sent| == |w.log.sent| + Sends(es)
    decreases |es|
  {
    if es != [] {
      StepKeepsGood(w, es[0]);
      EverySendIsLogged(Step(w, es[0]), es[1..]);
    }
  }

  /** Over every run, each message sent either has arrived exactly once, unaltered, at the
      process it was sent to and under its sender's name, or its sender is still blocked with it. */
  lemma ExactlyOnce(n: nat, es: seq<Event>)
    requires Good(Start(n)) && Legal(Start(n), es)
    ensures var w := After(Start(n), es);
            |w.log.sent| == Sends(es) &&
            (forall t :: 0 <= t < |w.log.sent| ==>
              w.log.sent[t].msg.source == w.log.sent[t].src &&
              (Arrived(w.log, t) <==> !Pending(w, w.log.sent[t].src, t))) &&
            (forall i :: 0 <= i < |w.log.arrived| ==>
              var r := w.log.arrived[i];
              r.ticket < |w.log.sent| && r.to == w.log.sent[r.ticket].dst && r.msg == w.log.sent[r.ticket].msg) &&
            (forall i, j :: 0 <= i < j < |w.log.arrived| ==> w.log.arrived[i].ticket != w.log.arrived[j].ticket)
  {
    EverySendIsLogged(Start(n), es);
    var w := After(Start(n), es);
    forall t | 0 <= t < |w.log.sent|
      ensures w.log.sent[t].msg.source == w.log.sent[t].src
      ensures Arrived(w.log, t) <==> !Pending(w, w.log.sent[t].src, t)
    {
      assert LetterOk(w, t);
      var s := w.log.sent[t].src;
      assert s < |w.ipc.cell| ==> PendingOk(w, s);
    }
    forall i | 0 <= i < |w.log.arrived|
      ensures var r := w.log.arrived[i];
              r.ticket < |w.log.sent| && r.to == w.log.sent[r.ticket].dst && r.msg == w.log.sent[r.ticket].msg
    {
      assert ArrivalOk(w.log, i);
    }
    forall i, j | 0 <= i < j < |w.log.arrived| ensures w.log.arrived[i].ticket != w.log.arrived[j].ticket {
      assert ArrivalOk(w.log, j);
    }
  }

  /** A receive from ANY serves the sender that has been blocked longest; a receive from a
      named sender takes that one out and leaves the order of the others as it was. */
  lemma BlockingOrder(w: World, p: nat, src: int, addr: nat)
    requires Good(w) && Enabled(w, Receive(p, src, addr)) && Serves(w.ipc, Receive(p, src, addr))
    ensures var f := Chosen(w.ipc, p, src);
            0 <= f < |w.log.ticket| && f in w.ipc.queue[p] &&
            Step(w, Receive(p, src, addr)).ipc.queue[p] == Without(w.ipc.queue[p], f) &&
            (src == ANY ==> forall s :: 0 <= s < |w.ipc.cell| && s != f && w.ipc.cell[s].status == Sending(p) ==>
              w.log.ticket[f] < w.log.ticket[s])
  {
    ChosenIsQueued(w.ipc, p, src);
    StampKeeps(w.ipc, p, addr);
    assert LineOk(w, p) && QueueOk(w.ipc, p);
    forall s | 0 <= s < |w.ipc.cell| && w.ipc.cell[s].status == Sending(p)
      ensures s in w.ipc.queue[p]
    {
      assert StatusOk(w.ipc, s);
    }
  }

  /** An interrupt wakes whoever waits for one or else stays pending, and a pending one goes
      away only when its process receives from INTERRUPT or ANY. */
  lemma InterruptsAreKept(a: Ipc, e: Event, p: nat)
    requires Invariant(a) && Callable(a, e) && !Halts(a, e) && p < |a.cell|
    ensures var b := Next(a, e);
            |b.cell| == |a.cell| &&
            (a.cell[p].hasInt && !b.cell[p].hasInt ==>
              e.Receive? && e.p == p && (e.src == ANY || e.src == INTERRUPT)) &&
            (e == Interrupt(p) ==>
              if AwaitsInterrupt(a.cell[p])
              then b.cell[p].status == Ready && Load(b.cell[p].mem, a.cell[p].msg) == Message(INTERRUPT, HARD_INT)
              else b.cell[p].hasInt && b.cell[p].status == a.cell[p].status)
  {
    StepKeeps(a, e);
    if e.Receive? {
      ChosenIsQueued(a, e.p, e.src);
    }
  }

  /** The assertions on `p_msg` in `msg_receive` fail exactly when a blocked sender is there
      to be served and the receiver's last call was completed by an interrupt; the one on
      `has_int_msg` fails exactly when a process with an interrupt pending has to block on a
      named sender. */
  lemma ReceiveHalts(w: World, p: nat, src: int, addr: nat)
    requires Good(w) && Callable(w.ipc, Receive(p, src, addr))
    ensures var e := Receive(p, src, addr);
            Halts(w.ipc, e) <==>
              !TakesInterrupt(w.ipc, p, src) &&
              if Serves(w.ipc, e) then w.log.woken[p]
              else src >= 0 && w.ipc.cell[p].hasInt
  {
    assert StaleOk(w, p);
    ChosenIsQueued(w.ipc, p, src);
  }

  /** A run after which a receive from ANY fails the assertion at the head of the queue path. */
  lemma StaleBufferExample()
    ensures var es := [Receive(0, INTERRUPT, 1), Interrupt(0), Send(1, 0, 1)];
            Good(Start(2)) && Legal(Start(2), es) &&
            var w := After(Start(2), es);
            Callable(w.ipc, Receive(0, ANY, 1)) && Halts(w.ipc, Receive(0, ANY, 1))
  {
    StartIsGood(2);
    var e0, e1, e2 := Receive(0, INTERRUPT, 1), Interrupt(0), Send(1, 0, 1);
    var w0 := Start(2);
    assert Enabled(w0, e0);
    AfterCons(w0, e0, [e1] + [e2]);
    var w1 := Step(w0, e0);
    assert w1.ipc.cell[0].status == Receiving(INTERRUPT) && w1.ipc.cell[0].msg == 1 && w1.ipc.cell[1].status == Ready;
    StaleBufferRest(w1);
    assert [e0] + ([e1] + [e2]) == [e0, e1, e2];
  }

  lemma StaleBufferRest(w: World)
    requires Good(w) && |w.ipc.cell| == 2 && w.ipc.cell[0].status == Receiving(INTERRUPT)
    requires w.ipc.cell[0].msg == 1 && w.ipc.cell[1].status == Ready && w.ipc.queue[0] == []
    ensures var es := [Interrupt(0)] + [Send(1, 0, 1)];
            Legal(w, es) && Callable(After(w, es).ipc, Receive(0, ANY, 1)) &&
            Halts(After(w, es).ipc, Receive(0, ANY, 1))
  {
    var e1, e2 := Interrupt(0), Send(1, 0, 1);
    AfterCons(w, e1, [e2]);
    var w1 := Step(w, e1);
    assert w1.ipc.cell[0].status == Ready && w1.ipc.cell[0].msg == 1 && w1.ipc.queue == w.ipc.queue;
    assert forall k: nat :: Hop(w1.ipc, 0, k) == if k == 0 then 0 else NIL;
    AfterCons(w1, e2, []);
    var w2 := Step(w1, e2);
    assert w2.ipc.queue[0] == [1] && w2.ipc.cell[0].msg == 1 && w2.ipc.cell[0].status == Ready;
    assert [e2] + [] == [e2];
    assert After(w2, []) == w2;
  }

  /** A run after which a receive from a named process fails the assertion on the pending bit. */
  lemma PendingInterruptExample()
    ensures Good(Start(2)) && Legal(Start(2), [Interrupt(0)]) &&
            var w := After(Start(2), [Interrupt(0)]);
            Callable(w.ipc, Receive(0, 1, 1)) && Halts(w.ipc, Receive(0, 1, 1))
  {
    StartIsGood(2);
    StepKeepsGood(Start(2), Interrupt(0));
    var w := Step(Start(2), Interrupt(0));
    assert w.ipc.cell[0].hasInt;
    assert After(w, []) == w;
  }
}
