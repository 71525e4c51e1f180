/** A run from boot in which every kind of step of the programs in `Layers` occurs.  Two clients make
    a request each.  The file system takes one at once and finds the other in its queue.  The disk
    task starts two transfers, waits for the interrupt of the first, and finds that of the second
    pending.  Replies are taken at once or wait to be taken.  The run is played on a summary of
    the system, and each move of the summary is shown to be a step of the system. */
module Service {
  import opened Processes
  import opened Rendezvous
  import opened Layers

  const N := 7

  /** The statuses and programs of all processes, the disk task's pending interrupt, and the disk. */
  datatype Snap = Snap(st: seq<Status>, pc: seq<Pc>, pending: bool, armed: bool)

  predicate Sized(s: Snap) {
    |s.st| == |s.pc| == N
  }

  ghost predicate Looks(w: System, s: Snap) {
    Layered(w) && Sized(s) && |w.ipc.cell| == |w.pc| == N && s.pc == w.pc && w.armed == s.armed &&
    forall p :: 0 <= p < N ==> w.ipc.cell[p].status == s.st[p] && w.ipc.cell[p].hasInt == (p == TASK_HD && s.pending)
  }

  // ---------------------------------------------------------------- the six kinds of steps

  function Asked(s: Snap, p: nat, d: nat): (t: Snap)
    requires Sized(s) && p < N && d < N
    ensures Sized(t)
  {
    var asked := s.pc[p := s.pc[p].(awaits := d)];
    if s.st[d] == Receiving(ANY) then s.(st := s.st[d := Ready], pc := asked[d := asked[d].(owes := p)])
    else s.(st := s.st[p := Sending(d)], pc := asked)
  }

  predicate Free(s: Snap, p: nat) {
    Sized(s) && p < N && s.st[p] == Ready && s.pc[p].awaits == NIL && !s.pc[p].transfer
  }

  lemma NotForAsker(w: System, p: nat, d: nat)
    requires Layered(w) && p < |w.pc| && d < |w.pc| && Rank(d) > Rank(p)
    ensures w.ipc.cell[d].status != Receiving(p)
  {
    assert Fits(w, d) && Fits(w, p);
  }

  /** A request, which the server takes at once if it waits for one. */
  lemma AskedLooks(w: System, s: Snap, p: nat, d: nat)
    requires Looks(w, s) && Free(s, p) && d < N && Rank(d) > Rank(p)
    ensures Follows(w, Call(Send(p, d, 1))) && Looks(Advance(w, Call(Send(p, d, 1))), Asked(s, p, d))
  {
    NotForAsker(w, p, d);
    RequestSeen(w, p, d, 1);
    AdvanceKeeps(w, Call(Send(p, d, 1)));
  }

  function Answered(s: Snap, p: nat, d: nat): (t: Snap)
    requires Sized(s) && p < N && d < N
    ensures Sized(t)
  {
    s.(st := if s.st[d] == Receiving(p) then s.st[d := Ready] else s.st[p := Sending(d)],
       pc := s.pc[p := s.pc[p].(owes := NIL)])
  }

  /** A reply, which the client takes at once if it waits for it. */
  lemma AnsweredLooks(w: System, s: Snap, p: nat, d: nat)
    requires Looks(w, s) && Free(s, p) && d < N && p != d && Rank(d) <= Rank(p) && s.pc[p].owes == d
    ensures Follows(w, Call(Send(p, d, 1))) && Looks(Advance(w, Call(Send(p, d, 1))), Answered(s, p, d))
  {
    assert Fits(w, p);
    assert s.st[d] != Receiving(ANY);
    ReplySeen(w, p, d, 1);
    AdvanceKeeps(w, Call(Send(p, d, 1)));
  }

  /** A server without a request asks for any, whoever has made a request for its reply. */
  predicate AsksFrom(s: Snap, p: nat, src: int)
    requires Sized(s) && p < N
  {
    s.st[p] == Ready && !s.pc[p].transfer &&
    if s.pc[p].awaits == NIL then src == ANY && s.pc[p].owes == NIL && Rank(p) > 0 else src == s.pc[p].awaits
  }

  /** Of those that `p` would take a message from, `f` is the only one that is blocked with one,
      or none is if `f` is NIL. */
  predicate OnlySender(s: Snap, p: nat, src: int, f: int)
    requires Sized(s)
  {
    forall q :: 0 <= q < N && (src == ANY || q == src) ==> (s.st[q] == Sending(p) <==> q == f)
  }

  function Taken(s: Snap, p: nat, f: nat): (t: Snap)
    requires Sized(s) && p < N && f < N
    ensures Sized(t)
  {
    s.(st := s.st[f := Ready],
       pc := s.pc[p := if s.pc[p].awaits == NIL then s.pc[p].(owes := f) else s.pc[p].(awaits := NIL)])
  }

  /** A receive that takes what `f` is blocked with: the next request, or the reply to one's own. */
  lemma TakenLooks(w: System, s: Snap, p: nat, src: int, f: nat)
    requires Looks(w, s) && p < N && f < N && AsksFrom(s, p, src) && OnlySender(s, p, src, f)
    requires s.pc[p].awaits == NIL || src == f
    ensures Follows(w, Call(Receive(p, src, 1))) && Looks(Advance(w, Call(Receive(p, src, 1))), Taken(s, p, f))
  {
    assert Fits(w, p);
    ChosenIsQueued(w.ipc, p, src);
    assert s.st[f] == Sending(p);
    assert Chosen(w.ipc, p, src) == f;
    ReceiveSeen(w, p, src, 1);
    AdvanceKeeps(w, Call(Receive(p, src, 1)));
  }

  function Blocked(s: Snap, p: nat, src: int): (t: Snap)
    requires Sized(s) && p < N
    ensures Sized(t)
  {
    s.(st := s.st[p := Receiving(src)], pc := s.pc[p := s.pc[p].(awaits := NIL)])
  }

  /** A receive that blocks, on the next request or on the reply to one's own. */
  lemma BlockedLooks(w: System, s: Snap, p: nat, src: int)
    requires Looks(w, s) && p < N && AsksFrom(s, p, src) && OnlySender(s, p, src, NIL)
    ensures Follows(w, Call(Receive(p, src, 1))) && Looks(Advance(w, Call(Receive(p, src, 1))), Blocked(s, p, src))
  {
    assert Fits(w, p);
    ChosenIsQueued(w.ipc, p, src);
    ReceiveSeen(w, p, src, 1);
    AdvanceKeeps(w, Call(Receive(p, src, 1)));
  }

  function Started(s: Snap): (t: Snap)
    requires Sized(s)
    ensures Sized(t)
  {
    s.(pc := s.pc[TASK_HD := s.pc[TASK_HD].(transfer := true)], armed := true)
  }

  lemma StartedLooks(w: System, s: Snap)
    requires Looks(w, s) && Free(s, TASK_HD) && s.pc[TASK_HD].owes != NIL
    ensures Follows(w, StartTransfer) && Looks(Advance(w, StartTransfer), Started(s))
  {
    AdvanceKeeps(w, StartTransfer);
  }

  function InterruptTaken(s: Snap): (t: Snap)
    requires Sized(s)
    ensures Sized(t)
  {
    s.(st := if s.pending then s.st else s.st[TASK_HD := Receiving(INTERRUPT)],
       pc := s.pc[TASK_HD := s.pc[TASK_HD].(transfer := false)], pending := false)
  }

  /** The disk task waits for its interrupt, or takes the one that is pending. */
  lemma InterruptTakenLooks(w: System, s: Snap)
    requires Looks(w, s) && s.st[TASK_HD] == Ready && s.pc[TASK_HD].transfer
    ensures Follows(w, Call(Receive(TASK_HD, INTERRUPT, 1)))
    ensures Looks(Advance(w, Call(Receive(TASK_HD, INTERRUPT, 1))), InterruptTaken(s))
  {
    assert Fits(w, TASK_HD);
    ReceiveSeen(w, TASK_HD, INTERRUPT, 1);
    AdvanceKeeps(w, Call(Receive(TASK_HD, INTERRUPT, 1)));
  }

  function Struck(s: Snap): (t: Snap)
    requires Sized(s)
    ensures Sized(t)
  {
    var waits := s.st[TASK_HD] == Receiving(INTERRUPT);
    s.(st := if waits then s.st[TASK_HD := Ready] else s.st, pending := !waits, armed := false)
  }

  lemma StruckLooks(w: System, s: Snap)
    requires Looks(w, s) && s.armed
    ensures Follows(w, Call(Interrupt(TASK_HD))) && Looks(Advance(w, Call(Interrupt(TASK_HD))), Struck(s))
  {
    assert Fits(w, TASK_HD);
    AdvanceKeeps(w, Call(Interrupt(TASK_HD)));
  }

  // ---------------------------------------------------------------- the run

  datatype Move = Ask(p: nat, d: nat) | Answer(p: nat, d: nat) | TakeFrom(p: nat, src: int, f: nat) |
                  Block(p: nat, src: int) | Start | AwaitDisk | Strike

  function Act(m: Move): Action {
    match m
    case Ask(p, d) => Call(Send(p, d, 1))
    case Answer(p, d) => Call(Send(p, d, 1))
    case TakeFrom(p, src, f) => Call(Receive(p, src, 1))
    case Block(p, src) => Call(Receive(p, src, 1))
    case Start => StartTransfer
    case AwaitDisk => Call(Receive(TASK_HD, INTERRUPT, 1))
    case Strike => Call(Interrupt(TASK_HD))
  }

  predicate Can(s: Snap, m: Move) {
    Sized(s) &&
    match m
    case Ask(p, d) => Free(s, p) && d < N && Rank(d) > Rank(p)
    case Answer(p, d) => Free(s, p) && d < N && p != d && Rank(d) <= Rank(p) && s.pc[p].owes == d
    case TakeFrom(p, src, f) =>
      p < N && f < N && AsksFrom(s, p, src) && OnlySender(s, p, src, f) && (s.pc[p].awaits == NIL || src == f)
    case Block(p, src) => p < N && AsksFrom(s, p, src) && OnlySender(s, p, src, NIL)
    case Start => Free(s, TASK_HD) && s.pc[TASK_HD].owes != NIL
    case AwaitDisk => s.st[TASK_HD] == Ready && s.pc[TASK_HD].transfer
    case Strike => s.armed
  }

  function Then(s: Snap, m: Move): (t: Snap)
    requires Can(s, m)
    ensures Sized(t)
  {
    match m
    case Ask(p, d) => Asked(s, p, d)
    case Answer(p, d) => Answered(s, p, d)
    case TakeFrom(p, src, f) => Taken(s, p, f)
    case Block(p, src) => Blocked(s, p, src)
    case Start => Started(s)
    case AwaitDisk => InterruptTaken(s)
    case Strike => Struck(s)
  }

  lemma MoveLooks(w: System, s: Snap, m: Move)
    requires Looks(w, s) && Can(s, m)
    ensures Follows(w, Act(m)) && Looks(Advance(w, Act(m)), Then(s, m))
  {
    match m
    case Ask(p, d) => AskedLooks(w, s, p, d);
    case Answer(p, d) => AnsweredLooks(w, s, p, d);
    case TakeFrom(p, src, f) => TakenLooks(w, s, p, src, f);
    case Block(p, src) => BlockedLooks(w, s, p, src);
    case Start => StartedLooks(w, s);
    case AwaitDisk => InterruptTakenLooks(w, s);
    case Strike => StruckLooks(w, s);
  }

  predicate Plays(s: Snap, ms: seq<Move>)
    decreases |ms|
  {
    ms == [] || (Can(s, ms[0]) && Plays(Then(s, ms[0]), ms[1..]))
  }

  function End(s: Snap, ms: seq<Move>): Snap
    requires Plays(s, ms)
    decreases |ms|
  {
    if ms == [] then s else End(Then(s, ms[0]), ms[1..])
  }

  function Acts(ms: seq<Move>): seq<Action> {
    if ms == [] then [] else [Act(ms[0])] + Acts(ms[1..])
  }

  lemma {:induction false} Played(w: System, s: Snap, ms: seq<Move>)
    requires Looks(w, s) && Plays(s, ms)
    ensures IsRun(w, Acts(ms)) && Looks(After(w, Acts(ms)), End(s, ms))
    decreases |ms|
  {
    if ms != [] {
      MoveLooks(w, s, ms[0]);
      assert Acts(ms)[1..] == Acts(ms[1..]);
      Played(Advance(w, Act(ms[0])), Then(s, ms[0]), ms[1..]);
    }
  }

  const IDLE := Pc(NIL, NIL, false)

  function AtBoot(): Snap {
    Snap([Ready, Ready, Ready, Ready, Ready, Ready, Ready], [IDLE, IDLE, IDLE, IDLE, IDLE, IDLE, IDLE], false, false)
  }

  function AtIdle(): Snap {
    Snap([Ready, Ready, Ready, Ready, Ready, Receiving(ANY), Receiving(ANY)],
         [IDLE, IDLE, IDLE, IDLE, IDLE, IDLE, IDLE], false, false)
  }

  /** FS works on the request of process 0; process 1 is queued. */
  function AtFs(): Snap {
    Snap([Receiving(TASK_FS), Sending(TASK_FS), Ready, Ready, Ready, Receiving(ANY), Ready],
         [IDLE, Pc(NIL, TASK_FS, false), IDLE, IDLE, IDLE, IDLE, Pc(0, NIL, false)], false, false)
  }

  /** The disk task works for FS. */
  function AtDisk(): Snap {
    Snap([Receiving(TASK_FS), Sending(TASK_FS), Ready, Ready, Ready, Ready, Receiving(TASK_HD)],
         [IDLE, Pc(NIL, TASK_FS, false), IDLE, IDLE, IDLE, Pc(TASK_FS, NIL, false), Pc(0, NIL, false)], false, false)
  }

  ghost predicate Leads(ms: seq<Move>, t: Snap) {
    Plays(AtBoot(), ms) && End(AtBoot(), ms) == t
  }

  lemma {:induction false} OneMore(s: Snap, ms: seq<Move>, m: Move)
    requires Plays(s, ms) && Can(End(s, ms), m)
    ensures Plays(s, ms + [m]) && End(s, ms + [m]) == Then(End(s, ms), m)
    decreases |ms|
  {
    if ms == [] {
      assert [m][1..] == [] && ms + [m] == [m];
    } else {
      assert (ms + [m])[1..] == ms[1..] + [m];
      OneMore(Then(s, ms[0]), ms[1..], m);
    }
  }

  lemma Go(ms: seq<Move>, t: Snap, m: Move) returns (ms1: seq<Move>, t1: Snap)
    requires Leads(ms, t) && Can(t, m)
    ensures t1 == Then(t, m) && Leads(ms1, t1) && ms <= ms1
  {
    OneMore(AtBoot(), ms, m);
    ms1, t1 := ms + [m], Then(t, m);
  }

  /** FS and the disk task wait for requests. */
  lemma ToIdle() returns (ms: seq<Move>)
    ensures Leads(ms, AtIdle())
  {
    var s := AtBoot();
    ms := [];
    ms, s := Go(ms, s, Block(TASK_FS, ANY));
    ms, s := Go(ms, s, Block(TASK_HD, ANY));
    assert s.st == AtIdle().st && s.pc == AtIdle().pc;
  }

  /** Both clients make one. */
  lemma ToFs(ms0: seq<Move>) returns (ms: seq<Move>)
    requires Leads(ms0, AtIdle())
    ensures Leads(ms, AtFs()) && ms0 <= ms
  {
    var s;
    ms, s := Go(ms0, AtIdle(), Ask(0, TASK_FS));
    assert s.pc[0] == Pc(NIL, TASK_FS, false) && s.pc[1] == IDLE && s.st[1] == Ready && s.st[0] == Ready;
    ms, s := Go(ms, s, Ask(1, TASK_FS));
    assert s.st[0] == Ready && s.pc[0] == Pc(NIL, TASK_FS, false) && s.st[TASK_FS] == Ready;
    ms, s := Go(ms, s, Block(0, TASK_FS));
    assert s.st == AtFs().st && s.pc == AtFs().pc;
  }

  lemma ToDisk(ms0: seq<Move>) returns (ms: seq<Move>)
    requires Leads(ms0, AtFs())
    ensures Leads(ms, AtDisk()) && ms0 <= ms
  {
    var s;
    ms, s := Go(ms0, AtFs(), Ask(TASK_FS, TASK_HD));
    ms, s := Go(ms, s, Block(TASK_FS, TASK_HD));
    assert s.st == AtDisk().st && s.pc == AtDisk().pc;
  }

  /** Two transfers: one whose interrupt is waited for, and one whose interrupt comes first. */
  lemma Transfers(ms0: seq<Move>) returns (ms: seq<Move>)
    requires Leads(ms0, AtDisk())
    ensures Leads(ms, AtDisk()) && ms0 <= ms
  {
    var s;
    ms, s := Go(ms0, AtDisk(), Start);
    ms, s := Go(ms, s, AwaitDisk);
    ms, s := Go(ms, s, Strike);
    assert s.st == AtDisk().st && s.pc == AtDisk().pc;
    ms, s := Go(ms, s, Start);
    ms, s := Go(ms, s, Strike);
    ms, s := Go(ms, s, AwaitDisk);
    assert s.st == AtDisk().st && s.pc == AtDisk().pc;
  }

  /** The disk task replies to FS, FS to process 0; then FS takes the queued request and replies. */
  lemma ToEnd(ms0: seq<Move>) returns (ms: seq<Move>)
    requires Leads(ms0, AtDisk())
    ensures Leads(ms, AtBoot()) && ms0 <= ms
  {
    var s;
    ms, s := Go(ms0, AtDisk(), Answer(TASK_HD, TASK_FS));
    ms, s := Go(ms, s, Answer(TASK_FS, 0));
    ms, s := Go(ms, s, TakeFrom(TASK_FS, ANY, 1));
    ms, s := Go(ms, s, Answer(TASK_FS, 1));
    ms, s := Go(ms, s, TakeFrom(1, TASK_FS, TASK_FS));
    assert s.st == AtBoot().st && s.pc == AtBoot().pc;
  }

  lemma BootLooks()
    ensures Looks(Boot(N), AtBoot())
  {
    BootIsLayered(N);
  }

  lemma {:induction false} ActsOfMore(ms: seq<Move>, ms1: seq<Move>)
    requires ms <= ms1
    ensures Acts(ms) <= Acts(ms1)
    decreases |ms|
  {
    if ms != [] {
      ActsOfMore(ms[1..], ms1[1..]);
    }
  }

  /** Process 0 waits for the reply of FS, FS for that of the disk task, and process 1 for FS. */
  ghost predicate BothWait(w: System) {
    |w.ipc.cell| == |w.pc| == N && w.ipc.cell[0].status == Receiving(TASK_FS) &&
    w.ipc.cell[1].status == Sending(TASK_FS) && w.ipc.cell[TASK_FS].status == Receiving(TASK_HD) &&
    w.pc[TASK_FS].owes == 0 && w.pc[TASK_HD].owes == TASK_FS
  }

  ghost predicate NobodyWaits(w: System) {
    |w.ipc.cell| == |w.pc| == N &&
    forall p :: 0 <= p < N ==> w.ipc.cell[p].status == Ready && w.pc[p].owes == w.pc[p].awaits == NIL
  }

  lemma BothWaitAtDisk(w: System)
    requires Looks(w, AtDisk())
    ensures BothWait(w)
  {
    var s := AtDisk();
    assert s.st[0] == Receiving(TASK_FS) && s.st[1] == Sending(TASK_FS) && s.st[TASK_FS] == Receiving(TASK_HD);
  }

  lemma NobodyWaitsAtBoot(w: System)
    requires Looks(w, AtBoot())
    ensures NobodyWaits(w)
  {
    var s := AtBoot();
    assert forall p :: 0 <= p < N ==> s.st[p] == Ready && s.pc[p] == IDLE;
  }

  /** From boot, a run leads to where both clients wait for FS, and it goes on to where both have their
      replies and nobody owes one. */
  lemma RequestsAreServed() returns (a: seq<Action>, b: seq<Action>)
    ensures Layered(Boot(N)) && IsRun(Boot(N), a) && IsRun(Boot(N), b) && a <= b
    ensures BothWait(After(Boot(N), a)) && NobodyWaits(After(Boot(N), b))
  {
    BootLooks();
    var ms := ToIdle();
    ms := ToFs(ms);
    ms := ToDisk(ms);
    Played(Boot(N), AtBoot(), ms);
    a := Acts(ms);
    BothWaitAtDisk(After(Boot(N), a));
    var ms1 := Transfers(ms);
    ms1 := ToEnd(ms1);
    Played(Boot(N), AtBoot(), ms1);
    b := Acts(ms1);
    NobodyWaitsAtBoot(After(Boot(N), b));
    ActsOfMore(ms, ms1);
  }
}
