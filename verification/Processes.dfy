/** The process table of the kernel and the values that cross the IPC interface. */
module Processes {

  const NO_TASK := -1
  const ANY := -2
  const INTERRUPT := -3
  const HARD_INT := 1

  /** The null `PROCESS*`; any other process pointer is an index into the table. */
  const NIL := -1

  datatype Flag = SENDING | RECEIVING

  /** `body` stands for every field of MESSAGE other than `source`. */
  datatype Message = Message(source: int, body: int)

  /** The message-sized cells of one address space, by address; address 0 is the null pointer. */
  type Memory = map<nat, Message>

  function Load(mem: Memory, addr: nat): Message {
    if addr in mem then mem[addr] else Message(0, 0)
  }

  /** The fields of PROCESS that IPC and scheduling read or write.  The two bits of
      `p_flags` are a set, so that `|= SENDING` adds an element and `== 0` is emptiness. */
  datatype Process = Process(
    flags: set<Flag>,
    msg: nat,
    recvFrom: int,
    sendTo: int,
    hasInt: bool,
    qSending: int,
    next: int,
    mem: Memory,
    priority: int,
    ticks: int
  )

  function IndexOf(q: seq<nat>, x: nat): (i: nat)
    requires x in q
    ensures i < |q| && q[i] == x && x !in q[..i]
  {
    if q[0] == x then 0 else 1 + IndexOf(q[1..], x)
  }

  /** `q` with the first occurrence of `x` taken out and the order of the rest kept. */
  function Without(q: seq<nat>, x: nat): seq<nat>
    requires x in q
  {
    var i := IndexOf(q, x); q[..i] + q[i + 1..]
  }

  ghost predicate Distinct<T>(q: seq<T>) {
    forall i, j :: 0 <= i < j < |q| ==> q[i] != q[j]
  }
}
