/** Clients and servers that call each other with BOTH: no call halts, and every wait ends at somebody who can move. */
module Layers {
  import opened Processes
  import opened Rendezvous

  const TASK_SYS: nat := 4
  const TASK_HD: nat := 5
  const TASK_FS: nat := 6

  /** Requests only go up: client < FS < HD < SYS. */
  function Rank(p: int): nat {
    if p == TASK_SYS then 3 else if p == TASK_HD then 2 else if p == TASK_FS then 1 else 0
  }

  /** Where a process is in its own program.
      owes:     whose request a server is working on, or NIL: `src` of its loop, which it
                reads from the `source` field of the message in its buffer
      awaits:   the server whose reply the process has yet to ask for: the SEND half of
                BOTH has been issued, the RECEIVE half has not
      transfer: a disk command has been issued and not yet waited for */
  datatype Pc = Pc(owes: int, awaits: int, transfer: bool)

  /** `armed`: the disk is going to raise an interrupt. */
  datatype System = System(ipc: Ipc, pc: seq<Pc>, armed: bool)

  datatype Action = Call(e: Event) | StartTransfer

  // ---------------------------------------------------------------- what the programs do

  /** The calls that the loops of the servers and the library calls of the clients make. */
  ghost predicate Follows(w: System, act: Action) {
    TASK_FS < |w.ipc.cell| == |w.pc| &&
    match act
    case StartTransfer =>
      w.ipc.cell[TASK_HD].status == Ready && w.pc[TASK_HD].owes != NIL &&
      w.pc[TASK_HD].awaits == NIL && !w.pc[TASK_HD].transfer
    case Call(e) =>
      Callable(w.ipc, e) &&
      match e
      case Send(p, d, _) =>
        w.pc[p].awaits == NIL && !w.pc[p].transfer && (Rank(d) > Rank(p) || w.pc[p].owes == d)
      case Receive(p, src, _) =>
        if w.pc[p].awaits != NIL then src == w.pc[p].awaits
        else if w.pc[p].transfer then src == INTERRUPT
        else src == ANY && Rank(p) > 0 && w.pc[p].owes == NIL
      case Interrupt(d) => d == TASK_HD && w.armed
      case Store(_, _, _) => true
  }

  ghost function Advance(w: System, act: Action): System
    requires Layered(w) && Follows(w, act)
  {
    match act
    case StartTransfer => w.(pc := w.pc[TASK_HD := w.pc[TASK_HD].(transfer := true)], armed := true)
    case Call(e) =>
      var b := Next(w.ipc, e);
      match e
      case Send(p, d, _) =>
        if Rank(d) > Rank(p) then
          var pc1 := w.pc[p := w.pc[p].(awaits := d)];
          w.(ipc := b, pc := if Accepts(w.ipc.cell[d], p)
                             then pc1[d := pc1[d].(owes := Load(b.cell[d].mem, w.ipc.cell[d].msg).source)] else pc1)
        else
          w.(ipc := b, pc := w.pc[p := w.pc[p].(owes := NIL)])
      case Receive(p, src, addr) =>
        var f := Chosen(w.ipc, p, src);
        if src == ANY then
          w.(ipc := b, pc := if f >= 0 then w.pc[p := w.pc[p].(owes := Load(b.cell[p].mem, addr).source)] else w.pc)
        else if src == INTERRUPT then w.(ipc := b, pc := w.pc[p := w.pc[p].(transfer := false)])
        else w.(ipc := b, pc := w.pc[p := w.pc[p].(awaits := NIL)])
      case Interrupt(_) => w.(ipc := b, armed := false)
      case Store(_, _, _) => w.(ipc := b)
  }

  // ---------------------------------------------------------------- the layering invariant

  /** `t` is working on the request of `p`, which is waiting for the reply or about to. */
  ghost predicate Serves(w: System, t: nat, p: nat)
    requires t < |w.pc| == |w.ipc.cell|
  {
    p < |w.pc| && Rank(p) < Rank(t) &&
    if w.pc[p].awaits == t then w.ipc.cell[p].status == Ready
    else w.pc[p].awaits == NIL && w.ipc.cell[p].status == Receiving(t)
  }

  ghost predicate StatusFits(w: System, p: nat)
    requires p < |w.pc| == |w.ipc.cell|
  {
    var pc := w.pc[p];
    match w.ipc.cell[p].status
    case Ready => true
    case Sending(d) =>
      d < |w.pc| &&
      if Rank(d) > Rank(p) then pc.awaits == d
      else pc.awaits == NIL && pc.owes == NIL && Rank(d) < Rank(p) &&
           w.ipc.cell[d].status == Ready && w.pc[d].awaits == p
    case Receiving(f) =>
      pc.awaits == NIL &&
      if f == ANY then Rank(p) > 0 && pc.owes == NIL
      else if f == INTERRUPT then p == TASK_HD && w.armed && pc.owes != NIL
      else 0 <= f < |w.pc| && w.pc[f].owes == p
  }

  ghost predicate PcFits(w: System, p: nat)
    requires p < |w.pc| == |w.ipc.cell|
  {
    var pc := w.pc[p];
    var c := w.ipc.cell[p];
    (pc.owes == NIL || (0 <= pc.owes < |w.pc| && Serves(w, p, pc.owes))) &&
    (pc.awaits == NIL ||
      (0 <= pc.awaits < |w.pc| && Rank(pc.awaits) > Rank(p) &&
       (c.status == Sending(pc.awaits) ||
        (c.status == Ready && (w.pc[pc.awaits].owes == p || w.ipc.cell[pc.awaits].status == Sending(p)))))) &&
    (pc.transfer ==>
      p == TASK_HD && c.status == Ready && pc.awaits == NIL && pc.owes != NIL && (w.armed || c.hasInt)) &&
    (c.hasInt ==> pc.transfer && !w.armed) &&
    (c.status == Ready && c.msg != 0 ==> pc.awaits == NIL && pc.owes != NIL)
  }

  ghost predicate Fits(w: System, p: nat)
    requires p < |w.pc| == |w.ipc.cell|
  {
    StatusFits(w, p) && PcFits(w, p)
  }

  ghost predicate AllFit(w: System) {
    TASK_FS < |w.ipc.cell| == |w.pc| && (forall p :: 0 <= p < |w.pc| ==> Fits(w, p)) &&
    (w.armed ==> w.pc[TASK_HD].transfer || w.ipc.cell[TASK_HD].status == Receiving(INTERRUPT))
  }

  /** The message of a blocked sender carries the sender's number. */
  ghost predicate SourceOk(a: Ipc, p: nat)
    requires p < |a.cell|
  {
    a.cell[p].status.Sending? ==> Load(a.cell[p].mem, a.cell[p].msg).source == p
  }

  ghost predicate Stamped(a: Ipc) {
    forall p :: 0 <= p < |a.cell| ==> SourceOk(a, p)
  }

  ghost predicate Layered(w: System) {
    Invariant(w.ipc) && AllFit(w) && Stamped(w.ipc)
  }

  lemma StampsStay(a: Ipc, e: Event)
    requires Invariant(a) && Stamped(a) && Callable(a, e) && !Halts(a, e)
    ensures |Next(a, e).cell| == |a.cell| && Stamped(Next(a, e))
  {
    StepKeeps(a, e);
    if e.Receive? {
      ChosenIsQueued(a, e.p, e.src);
    }
    forall q | 0 <= q < |a.cell| ensures SourceOk(Next(a, e), q) {
      assert SourceOk(a, q);
    }
  }

  // ---------------------------------------------------------------- the kernel never refuses

  /** A chain of senders that starts above `p` goes up until it meets a reply, and a reply
      goes to a ready process that has made a request; so it does not come back to `p`. */
  lemma {:induction false} SendingChain(w: System, q: nat, p: nat, k: nat)
    requires Layered(w) && q < |w.pc| && p < |w.pc| && q != p
    requires Rank(q) > Rank(p) || !w.ipc.cell[q].status.Sending?
    requires w.ipc.cell[p].status == Ready && w.pc[p].awaits == NIL
    ensures Hop(w.ipc, q, k) != p
    decreases k
  {
    assert Fits(w, q);
    if k > 0 && w.ipc.cell[q].status.Sending? {
      SendingChain(w, w.ipc.cell[q].status.to, p, k - 1);
    }
  }

  lemma NeverHalts(w: System, e: Event)
    requires Layered(w) && Follows(w, Call(e))
    ensures !Halts(w.ipc, e)
  {
    match e
    case Send(p, d, _) =>
      assert Fits(w, p);
      forall k: nat ensures Hop(w.ipc, d, k) != p {
        SendingChain(w, d, p, k);
      }
    case Receive(p, src, _) =>
      assert Fits(w, p);
    case _ =>
  }

  /** What one IPC call shows to the layering: everything but the memory. */
  ghost predicate SameView(c: Cell, d: Cell) {
    c.status == d.status && c.msg == d.msg && c.hasInt == d.hasInt
  }

  lemma SendView(a: Ipc, p: nat, d: nat, addr: nat)
    requires Invariant(a) && Stamped(a) && Callable(a, Send(p, d, addr)) && !Halts(a, Send(p, d, addr))
    ensures var b := Next(a, Send(p, d, addr));
            Invariant(b) && Stamped(b) && |b.cell| == |a.cell| &&
            (Accepts(a.cell[d], p) ==> Load(b.cell[d].mem, a.cell[d].msg).source == p) &&
            (forall q :: 0 <= q < |a.cell| && q != p && q != d ==> SameView(b.cell[q], a.cell[q])) &&
            if Accepts(a.cell[d], p)
            then SameView(b.cell[p], a.cell[p].(msg := 0)) && SameView(b.cell[d], a.cell[d].(status := Ready, msg := 0))
            else SameView(b.cell[p], a.cell[p].(status := Sending(d), msg := addr)) && SameView(b.cell[d], a.cell[d])
  {
    StepKeeps(a, Send(p, d, addr));
    StampsStay(a, Send(p, d, addr));
  }

  lemma ReceiveView(a: Ipc, p: nat, src: int, addr: nat)
    requires Invariant(a) && Stamped(a) && Callable(a, Receive(p, src, addr)) && !Halts(a, Receive(p, src, addr))
    ensures var b := Next(a, Receive(p, src, addr));
            var f := Chosen(a, p, src);
            Invariant(b) && Stamped(b) && |b.cell| == |a.cell| &&
            (!TakesInterrupt(a, p, src) && f != NIL ==> Load(b.cell[p].mem, addr).source == f) &&
            (forall q :: 0 <= q < |a.cell| && q != p && q != f ==> SameView(b.cell[q], a.cell[q])) &&
            if TakesInterrupt(a, p, src)
            then SameView(b.cell[p], a.cell[p].(hasInt := false, msg := 0)) &&
                 (0 <= f < |a.cell| ==> SameView(b.cell[f], a.cell[f]))
            else if f == NIL then SameView(b.cell[p], a.cell[p].(status := Receiving(src), msg := addr))
            else 0 <= f < |a.cell| && a.cell[f].status == Sending(p) && f != p &&
                 SameView(b.cell[p], a.cell[p]) && SameView(b.cell[f], a.cell[f].(status := Ready, msg := 0))
    ensures src == ANY && Chosen(a, p, src) == NIL ==> forall s :: 0 <= s < |a.cell| ==> a.cell[s].status != Sending(p)
  {
    StepKeeps(a, Receive(p, src, addr));
    ChosenIsQueued(a, p, src);
    StampsStay(a, Receive(p, src, addr));
    if Chosen(a, p, src) >= 0 {
      assert StatusOk(a, Chosen(a, p, src)) && SourceOk(a, Chosen(a, p, src));
    }
  }

  /** The effect of a request on everything the layering looks at. */
  ghost predicate Requested(w: System, v: System, p: nat, d: nat) {
    |v.ipc.cell| == |w.ipc.cell| == |v.pc| == |w.pc| && v.armed == w.armed &&
    p < |w.pc| && d < |w.pc| && Rank(d) > Rank(p) &&
    w.ipc.cell[p].status == Ready && w.pc[p].awaits == NIL && !w.pc[p].transfer &&
    (forall q :: 0 <= q < |w.pc| && q != p && q != d ==>
      SameView(v.ipc.cell[q], w.ipc.cell[q]) && v.pc[q] == w.pc[q]) &&
    v.pc[p] == w.pc[p].(awaits := d) &&
    if Accepts(w.ipc.cell[d], p)
    then SameView(v.ipc.cell[p], w.ipc.cell[p].(msg := 0)) && v.pc[d] == w.pc[d].(owes := p) &&
         SameView(v.ipc.cell[d], w.ipc.cell[d].(status := Ready, msg := 0))
    else v.ipc.cell[p].status == Sending(d) && v.ipc.cell[p].hasInt == w.ipc.cell[p].hasInt &&
         v.pc[d] == w.pc[d] && SameView(v.ipc.cell[d], w.ipc.cell[d])
  }

  lemma RequestStatus(w: System, v: System, p: nat, d: nat, q: nat)
    requires AllFit(w) && Requested(w, v, p, d) && q < |w.pc|
    ensures StatusFits(v, q)
  {
    assert Fits(w, p) && Fits(w, d) && Fits(w, q);
  }

  lemma RequestPc(w: System, v: System, p: nat, d: nat, q: nat)
    requires AllFit(w) && Requested(w, v, p, d) && q < |w.pc|
    ensures PcFits(v, q)
  {
    assert Fits(w, p) && Fits(w, d) && Fits(w, q);
  }

  lemma RequestSeen(w: System, p: nat, d: nat, addr: nat)
    requires Layered(w) && Follows(w, Call(Send(p, d, addr))) && Rank(d) > Rank(p)
    ensures Requested(w, Advance(w, Call(Send(p, d, addr))), p, d)
  {
    NeverHalts(w, Send(p, d, addr));
    SendView(w.ipc, p, d, addr);
    assert Fits(w, d);
  }

  lemma RequestKeeps(w: System, p: nat, d: nat, addr: nat)
    requires Layered(w) && Follows(w, Call(Send(p, d, addr))) && Rank(d) > Rank(p)
    ensures Layered(Advance(w, Call(Send(p, d, addr))))
  {
    var v := Advance(w, Call(Send(p, d, addr)));
    NeverHalts(w, Send(p, d, addr));
    SendView(w.ipc, p, d, addr);
    RequestSeen(w, p, d, addr);
    assert Fits(w, TASK_HD);
    forall q | 0 <= q < |v.pc| ensures Fits(v, q) {
      RequestStatus(w, v, p, d, q);
      RequestPc(w, v, p, d, q);
    }
  }

  /** The effect of a reply. */
  ghost predicate Replied(w: System, v: System, p: nat, d: nat) {
    |v.ipc.cell| == |w.ipc.cell| == |v.pc| == |w.pc| && v.armed == w.armed &&
    p < |w.pc| && d < |w.pc| && p != d && w.pc[p].owes == d &&
    w.ipc.cell[p].status == Ready && w.pc[p].awaits == NIL && !w.pc[p].transfer &&
    (forall q :: 0 <= q < |w.pc| && q != p ==> v.pc[q] == w.pc[q]) &&
    (forall q :: 0 <= q < |w.pc| && q != p && q != d ==> SameView(v.ipc.cell[q], w.ipc.cell[q])) &&
    v.pc[p] == w.pc[p].(owes := NIL) &&
    if Accepts(w.ipc.cell[d], p)
    then SameView(v.ipc.cell[p], w.ipc.cell[p].(msg := 0)) &&
         SameView(v.ipc.cell[d], w.ipc.cell[d].(status := Ready, msg := 0))
    else v.ipc.cell[p].status == Sending(d) && v.ipc.cell[p].hasInt == w.ipc.cell[p].hasInt &&
         SameView(v.ipc.cell[d], w.ipc.cell[d])
  }

  lemma ReplyStatus(w: System, v: System, p: nat, d: nat, q: nat)
    requires AllFit(w) && Replied(w, v, p, d) && q < |w.pc|
    ensures StatusFits(v, q)
  {
    assert Fits(w, p) && Fits(w, d) && Fits(w, q);
  }

  lemma ReplyPc(w: System, v: System, p: nat, d: nat, q: nat)
    requires AllFit(w) && Replied(w, v, p, d) && q < |w.pc|
    ensures PcFits(v, q)
  {
    assert Fits(w, p) && Fits(w, d) && Fits(w, q);
  }

  lemma ReplySeen(w: System, p: nat, d: nat, addr: nat)
    requires Layered(w) && Follows(w, Call(Send(p, d, addr))) && Rank(d) <= Rank(p)
    ensures Replied(w, Advance(w, Call(Send(p, d, addr))), p, d)
  {
    NeverHalts(w, Send(p, d, addr));
    SendView(w.ipc, p, d, addr);
    assert Fits(w, p) && Fits(w, d);
  }

  lemma ReplyKeeps(w: System, p: nat, d: nat, addr: nat)
    requires Layered(w) && Follows(w, Call(Send(p, d, addr))) && Rank(d) <= Rank(p)
    ensures Layered(Advance(w, Call(Send(p, d, addr))))
  {
    var v := Advance(w, Call(Send(p, d, addr)));
    NeverHalts(w, Send(p, d, addr));
    SendView(w.ipc, p, d, addr);
    ReplySeen(w, p, d, addr);
    assert Fits(w, TASK_HD);
    forall q | 0 <= q < |v.pc| ensures Fits(v, q) {
      ReplyStatus(w, v, p, d, q);
      ReplyPc(w, v, p, d, q);
    }
  }

  /** The effect of a receive that takes the message of the blocked `f`. */
  ghost predicate Took(w: System, v: System, p: nat, f: nat) {
    |v.ipc.cell| == |w.ipc.cell| == |v.pc| == |w.pc| && v.armed == w.armed &&
    p < |w.pc| && f < |w.pc| && p != f && w.ipc.cell[f].status == Sending(p) && w.ipc.cell[p].status == Ready &&
    !w.pc[p].transfer &&
    (forall q :: 0 <= q < |w.pc| && q != p ==> v.pc[q] == w.pc[q]) &&
    (forall q :: 0 <= q < |w.pc| && q != f ==> SameView(v.ipc.cell[q], w.ipc.cell[q])) &&
    SameView(v.ipc.cell[f], w.ipc.cell[f].(status := Ready, msg := 0)) &&
    if w.pc[p].awaits == NIL then w.pc[p].owes == NIL && Rank(p) > 0 && v.pc[p] == w.pc[p].(owes := f)
    else w.pc[p].awaits == f && v.pc[p] == w.pc[p].(awaits := NIL)
  }

  lemma TookStatus(w: System, v: System, p: nat, f: nat, q: nat)
    requires AllFit(w) && Took(w, v, p, f) && q < |w.pc|
    ensures StatusFits(v, q)
  {
    assert Fits(w, p) && Fits(w, f) && Fits(w, q);
  }

  lemma TookPc(w: System, v: System, p: nat, f: nat, q: nat)
    requires AllFit(w) && Took(w, v, p, f) && q < |w.pc|
    ensures PcFits(v, q)
  {
    assert Fits(w, p) && Fits(w, f) && Fits(w, q);
  }

  /** The effect of a receive that blocks, or that takes a pending interrupt. */
  ghost predicate Waited(w: System, v: System, p: nat, src: int) {
    |v.ipc.cell| == |w.ipc.cell| == |v.pc| == |w.pc| && v.armed == w.armed &&
    p < |w.pc| && w.ipc.cell[p].status == Ready &&
    (forall q :: 0 <= q < |w.pc| && q != p ==> v.pc[q] == w.pc[q] && SameView(v.ipc.cell[q], w.ipc.cell[q])) &&
    if src == INTERRUPT then
      w.pc[p].transfer && w.pc[p].awaits == NIL && v.pc[p] == w.pc[p].(transfer := false) &&
      if w.ipc.cell[p].hasInt then SameView(v.ipc.cell[p], w.ipc.cell[p].(hasInt := false, msg := 0))
      else v.ipc.cell[p].status == Receiving(INTERRUPT) && !v.ipc.cell[p].hasInt
    else
      !w.pc[p].transfer && v.ipc.cell[p].status == Receiving(src) && v.ipc.cell[p].hasInt == w.ipc.cell[p].hasInt &&
      if src == ANY then w.pc[p].awaits == NIL == w.pc[p].owes && Rank(p) > 0 && v.pc[p] == w.pc[p] &&
        forall q :: 0 <= q < |w.pc| ==> w.ipc.cell[q].status != Sending(p)
      else w.pc[p].awaits == src && 0 <= src < |w.pc| && v.pc[p] == w.pc[p].(awaits := NIL) &&
           w.ipc.cell[src].status != Sending(p)
  }

  lemma WaitStatus(w: System, v: System, p: nat, src: int, q: nat)
    requires AllFit(w) && Waited(w, v, p, src) && q < |w.pc|
    ensures StatusFits(v, q)
  {
    assert Fits(w, p) && Fits(w, q);
  }

  lemma WaitPc(w: System, v: System, p: nat, src: int, q: nat)
    requires AllFit(w) && Waited(w, v, p, src) && q < |w.pc|
    ensures PcFits(v, q)
  {
    assert Fits(w, p) && Fits(w, q);
  }

  lemma ReceiveSeen(w: System, p: nat, src: int, addr: nat)
    requires Layered(w) && Follows(w, Call(Receive(p, src, addr)))
    ensures var v, f := Advance(w, Call(Receive(p, src, addr))), Chosen(w.ipc, p, src);
            if f != NIL then f >= 0 && Took(w, v, p, f) else Waited(w, v, p, src)
  {
    NeverHalts(w, Receive(p, src, addr));
    ReceiveView(w.ipc, p, src, addr);
    assert Fits(w, p);
  }

  lemma ReceiveKeeps(w: System, p: nat, src: int, addr: nat)
    requires Layered(w) && Follows(w, Call(Receive(p, src, addr)))
    ensures Layered(Advance(w, Call(Receive(p, src, addr))))
  {
    var v := Advance(w, Call(Receive(p, src, addr)));
    NeverHalts(w, Receive(p, src, addr));
    ReceiveView(w.ipc, p, src, addr);
    ReceiveSeen(w, p, src, addr);
    var f := Chosen(w.ipc, p, src);
    assert Fits(w, TASK_HD);
    forall q | 0 <= q < |v.pc| ensures Fits(v, q) {
      if f != NIL {
        TookStatus(w, v, p, f, q);
        TookPc(w, v, p, f, q);
      } else {
        WaitStatus(w, v, p, src, q);
        WaitPc(w, v, p, src, q);
      }
    }
  }

  lemma InterruptKeeps(w: System)
    requires Layered(w) && Follows(w, Call(Interrupt(TASK_HD)))
    ensures Layered(Advance(w, Call(Interrupt(TASK_HD))))
  {
    var v := Advance(w, Call(Interrupt(TASK_HD)));
    StrikeKeeps(w.ipc, TASK_HD);
    StampsStay(w.ipc, Interrupt(TASK_HD));
    assert Fits(w, TASK_HD);
    forall q | 0 <= q < |v.pc| ensures Fits(v, q) {
      assert Fits(w, q);
    }
  }

  lemma ProgramKeeps(w: System, act: Action)
    requires Layered(w) && Follows(w, act) && (act.StartTransfer? || act.e.Store?)
    ensures Layered(Advance(w, act))
  {
    var v := Advance(w, act);
    if act.Call? {
      StoreKeeps(w.ipc, act.e.p, act.e.addr, act.e.value);
      StampsStay(w.ipc, act.e);
    }
    assert Fits(w, TASK_HD);
    forall q | 0 <= q < |v.pc| ensures Fits(v, q) {
      assert Fits(w, q);
    }
  }

  /** Whatever step the programs take, the kernel neither refuses it as a deadlock nor fails
      an assertion, and the layering is kept. */
  lemma AdvanceKeeps(w: System, act: Action)
    requires Layered(w) && Follows(w, act)
    ensures Layered(Advance(w, act)) && (act.Call? ==> !Halts(w.ipc, act.e))
  {
    match act
    case StartTransfer => ProgramKeeps(w, act);
    case Call(e) =>
      NeverHalts(w, e);
      match e
      case Send(p, d, addr) =>
        if Rank(d) > Rank(p) { RequestKeeps(w, p, d, addr); } else { ReplyKeeps(w, p, d, addr); }
      case Receive(p, src, addr) => ReceiveKeeps(w, p, src, addr);
      case Interrupt(d) => InterruptKeeps(w);
      case Store(_, _, _) => ProgramKeeps(w, act);
  }

  // ---------------------------------------------------------------- every wait ends at somebody who can move

  /** The process that a blocked process needs to move, or NIL. */
  ghost function WaitsOn(w: System, p: nat): int
    requires p < |w.ipc.cell|
  {
    match w.ipc.cell[p].status
    case Ready => NIL
    case Sending(d) => d
    case Receiving(f) => if f >= 0 then f else NIL
  }

  /** Ready to run, or the disk task waiting for an interrupt that the disk will raise. */
  ghost predicate CanMove(w: System, p: nat)
    requires p < |w.ipc.cell|
  {
    w.ipc.cell[p].status == Ready ||
    (p == TASK_HD && w.ipc.cell[p].status == Receiving(INTERRUPT) && w.armed)
  }

  ghost predicate Idle(w: System, p: nat)
    requires p < |w.ipc.cell|
  {
    w.ipc.cell[p].status == Receiving(ANY)
  }

  /** An upper bound on the number of processes that have to move before `p` can. */
  ghost function Depth(w: System, p: nat): nat
    requires p < |w.ipc.cell|
  {
    if WaitsOn(w, p) == NIL then 0
    else if w.ipc.cell[p].status.Sending? && Rank(w.ipc.cell[p].status.to) < Rank(p) then 1
    else 4 - Rank(p)
  }

  ghost predicate WaitPath(w: System, path: seq<nat>) {
    path != [] && (forall i :: 0 <= i < |path| ==> path[i] < |w.ipc.cell|) &&
    forall i :: 0 <= i < |path| - 1 ==> WaitEdge(w, path, i)
  }

  ghost predicate WaitEdge(w: System, path: seq<nat>, i: nat)
    requires i < |path| - 1 && path[i] < |w.ipc.cell|
  {
    WaitsOn(w, path[i]) == path[i + 1]
  }

  lemma EdgeGoesDown(w: System, p: nat)
    requires Layered(w) && p < |w.pc| && WaitsOn(w, p) != NIL
    ensures var q := WaitsOn(w, p); 0 <= q < |w.pc| && Depth(w, q) < Depth(w, p) && !Idle(w, q)
  {
    var q := WaitsOn(w, p);
    assert Fits(w, p) && !Missed(w.ipc, p) && StatusOk(w.ipc, p);
    assert Fits(w, q);
  }

  /** No process waits for itself, and no chain of waiting passes more than four others. */
  lemma {:induction false} WaitsAreShort(w: System, path: seq<nat>)
    requires Layered(w) && WaitPath(w, path)
    ensures |path| <= 5 && Depth(w, path[0]) >= Depth(w, path[|path| - 1]) + |path| - 1
    ensures |path| > 1 ==> path[0] != path[|path| - 1]
  {
    if |path| > 1 {
      assert WaitEdge(w, path, 0);
      EdgeGoesDown(w, path[0]);
      var rest := path[1..];
      forall i | 0 <= i < |rest| - 1 ensures WaitEdge(w, rest, i) {
        assert WaitEdge(w, path, i + 1);
      }
      WaitsAreShort(w, rest);
    }
  }

  /** Every process that is not an idle server waits, over at most four others, for one
      that can move: a runnable process, or the disk task whose interrupt is coming. */
  lemma {:induction false} Progress(w: System, p: nat) returns (path: seq<nat>)
    requires Layered(w) && p < |w.pc| && !Idle(w, p)
    ensures WaitPath(w, path) && path[0] == p && |path| <= 5
    ensures CanMove(w, path[|path| - 1])
    decreases Depth(w, p)
  {
    assert Fits(w, p);
    if WaitsOn(w, p) == NIL {
      path := [p];
    } else {
      EdgeGoesDown(w, p);
      var rest := Progress(w, WaitsOn(w, p));
      path := [p] + rest;
      forall i | 0 <= i < |path| - 1 ensures WaitEdge(w, path, i) {
        assert i > 0 ==> WaitEdge(w, rest, i - 1);
      }
      WaitsAreShort(w, path);
    }
  }

  // ---------------------------------------------------------------- runs

  function Boot(n: nat): System {
    System(Initial(n), seq(n, _ => Pc(NIL, NIL, false)), false)
  }

  lemma BootIsLayered(n: nat)
    requires n > TASK_FS
    ensures Layered(Boot(n))
  {
    InitialInvariant(n);
    forall p | 0 <= p < n ensures Fits(Boot(n), p) {
    }
  }

  ghost predicate IsRun(w: System, acts: seq<Action>)
    requires Layered(w)
    decreases |acts|
  {
    acts == [] ||
    (Follows(w, acts[0]) && (AdvanceKeeps(w, acts[0]); IsRun(Advance(w, acts[0]), acts[1..])))
  }

  /** Every state the system reaches is layered, so everything above holds in it. */
  ghost function After(w: System, acts: seq<Action>): (v: System)
    requires Layered(w) && IsRun(w, acts)
    ensures Layered(v)
    decreases |acts|
  {
    if acts == [] then w else AdvanceKeeps(w, acts[0]); After(Advance(w, acts[0]), acts[1..])
  }

  /** From boot, whatever the clients ask for and whenever the disk interrupts: the next call is
      neither refused as a deadlock nor fails an assertion, and every process that is not an idle
      server waits, over at most four others, for one that can move. */
  lemma NothingEverHangs(n: nat, acts: seq<Action>)
    requires n > TASK_FS && (BootIsLayered(n); IsRun(Boot(n), acts))
    ensures Layered(Boot(n))
    ensures var w := After(Boot(n), acts);
            (forall e :: Follows(w, Call(e)) ==> !Halts(w.ipc, e)) &&
            forall p :: 0 <= p < |w.pc| && !Idle(w, p) ==>
              exists path :: WaitPath(w, path) && path[0] == p && |path| <= 5 && CanMove(w, path[|path| - 1])
  {
    BootIsLayered(n);
    var w := After(Boot(n), acts);
    forall e | Follows(w, Call(e)) ensures !Halts(w.ipc, e) {
      NeverHalts(w, e);
    }
    forall p | 0 <= p < |w.pc| && !Idle(w, p)
      ensures exists path :: WaitPath(w, path) && path[0] == p && |path| <= 5 && CanMove(w, path[|path| - 1])
    {
      var path := Progress(w, p);
    }
  }
}
