/** The rendezvous kernel as an abstract state machine: what SEND, RECEIVE, a device
    interrupt and a clock tick do to the process table, with a receiver's sending queue
    as a sequence instead of a linked list. The steps are atomic. */
module KernelState {
  import opened Options

  /** The task a key press is reported to. */
  const TASK_TTY: nat := 0

  /** Message type of an interrupt notification. */
  const HARD_INT := 1

  /** Process code an interrupt notification carries as its source. */
  const INTERRUPT := -10

  /** The contents of a message after it has been cleared. */
  const ZERO_BODY := [0, 0, 0, 0, 0, 0, 0, 0]

  datatype Message = Message(source: int, kind: int, body: seq<int>)

  /** Whom a receiver listens to. */
  datatype Peer = Any | Interrupt | From(pid: nat)

  /** A process is runnable, blocked sending the message in cell `out`, blocked waiting for
      a message to be put in cell `into`, or switched off by having every flag set. */
  datatype Status = Ready | Sending(to: nat, out: nat) | Receiving(peer: Peer, into: nat) | Off

  /** How a kernel entry ends. Everything but Done halts the machine, or leaves it undefined: the
      deadlock panic, a failed assertion, the scheduler looping because no process is runnable,
      and a pointer that has left the process table. */
  datatype Outcome = Done | Deadlock | AssertFailed | Spin | OffTable

  /** The process table, the memory cells that hold messages, and the scheduler's data.
      `latched` is the one-bit interrupt latch, `queue[r]` holds r's senders, oldest first. */
  datatype Kernel = Kernel(
    st: seq<Status>, latched: seq<bool>, queue: seq<seq<nat>>, mem: seq<Message>,
    ticks: seq<int>, prio: seq<int>, cur: nat, count: int)

  predicate Shape(k: Kernel) {
    && |k.latched| == |k.queue| == |k.ticks| == |k.prio| == |k.st|
    && k.cur < |k.st|
    && (forall p | 0 <= p < |k.st| :: k.st[p].Sending? ==> k.st[p].to < |k.st| && k.st[p].out < |k.mem|)
    && (forall p | 0 <= p < |k.st| :: k.st[p].Receiving? ==> k.st[p].into < |k.mem|)
    && (forall r, i {:trigger k.queue[r][i]} | 0 <= r < |k.st| && 0 <= i < |k.queue[r]| ::
          k.queue[r][i] < |k.st| && k.st[k.queue[r][i]].Sending?)
  }

  // ---------------------------------------------------------------- chains of senders

  /** Process number i on `path` is blocked sending to the one after it. */
  predicate Edge(st: seq<Status>, path: seq<nat>, i: nat)
    requires i + 1 < |path|
  {
    path[i] < |st| && st[path[i]].Sending? && st[path[i]].to == path[i + 1]
  }

  /** Consecutive processes on `path` are joined by "is blocked sending to". */
  ghost predicate IsChain(st: seq<Status>, path: seq<nat>) {
    && path != []
    && (forall i | 0 <= i < |path| :: path[i] < |st|)
    && (forall i | 0 <= i < |path| - 1 :: Edge(st, path, i))
  }

  /** Following one or more send edges from a leads to b. */
  ghost predicate Reaches(st: seq<Status>, a: nat, b: nat) {
    exists path :: IsChain(st, path) && |path| >= 2 && path[0] == a && path[|path| - 1] == b
  }

  /** The chain of blocked senders from p ends at `path`'s last process, which is not sending. */
  ghost predicate DrainsBy(st: seq<Status>, p: nat, path: seq<nat>) {
    IsChain(st, path) && path[0] == p && !st[path[|path| - 1]].Sending?
  }

  ghost predicate Drains(st: seq<Status>, p: nat) {
    exists path :: DrainsBy(st, p, path)
  }

  // ---------------------------------------------------------------- scheduling

  /** Lowest-numbered process of maximal positive time value among the first n that are
      runnable; -1 when none has a positive one. */
  function Best(st: seq<Status>, time: seq<int>, n: nat): (r: int)
    requires n <= |st| == |time|
    ensures -1 <= r < n
  {
    if n == 0 then -1
    else
      var b := Best(st, time, n - 1);
      if st[n - 1].Ready? && time[n - 1] > (if b < 0 then 0 else time[b]) then n - 1 else b
  }

  /** The scheduler: if every runnable process has used up its ticks, all processes get
      their priority back as ticks first. */
  function Reschedule(k: Kernel): (r: (Kernel, Outcome))
    requires |k.ticks| == |k.prio| == |k.st|
  {
    var b := Best(k.st, k.ticks, |k.st|);
    if b >= 0 then (k.(cur := b), Done)
    else
      var b' := Best(k.st, k.prio, |k.st|);
      if b' >= 0 then (k.(ticks := k.prio, cur := b'), Done)
      else (k.(ticks := k.prio), Spin)
  }

  // ---------------------------------------------------------------- kernel entries

  /** The caller's process number is stamped on every message passed to the kernel. */
  function Stamp(k: Kernel, m: nat): Kernel
    requires Shape(k) && m < |k.mem|
  {
    k.(mem := k.mem[m := k.mem[m].(source := k.cur)])
  }

  predicate Accepts(s: Status, sender: nat) {
    s.Receiving? && (s.peer == Any || s.peer == From(sender))
  }

  /** `q` without its element number i. */
  function Without<T>(q: seq<T>, i: nat): seq<T>
    requires i < |q|
  {
    q[..i] + q[i + 1..]
  }

  /** The deadlock test stays in the process table: it starts there, and not at a process that
      was switched off, which has the flag of a sender and no destination. */
  predicate OnTable(k: Kernel, dest: int) {
    0 <= dest < |k.st| && k.st[dest] != Off
  }

  /** SEND by the current process to `dest` of the message in cell m. */
  ghost function Send(k: Kernel, dest: int, m: nat): (r: (Kernel, Outcome))
    requires Shape(k) && m < |k.mem|
    ensures r.1 == Done ==> OnTable(k, dest)
  {
    if dest == k.cur then (k, AssertFailed)
    else if !OnTable(k, dest) then (k, OffTable)
    else if Reaches(k.st, dest, k.cur) then (k, Deadlock)
    else if Accepts(k.st[dest], k.cur) then
      (k.(mem := k.mem[k.st[dest].into := k.mem[m]], st := k.st[dest := Ready]), Done)
    else
      Reschedule(k.(st := k.st[k.cur := Sending(dest, m)],
                    queue := k.queue[dest := k.queue[dest] + [k.cur]]))
  }

  /** First position of x in q, or -1. */
  function IndexOf(q: seq<nat>, x: nat): (r: int)
    ensures -1 <= r < |q|
    ensures r >= 0 ==> q[r] == x && x !in q[..r]
    ensures r < 0 <==> x !in q
  {
    if q == [] then -1
    else
      var r := IndexOf(q[..|q| - 1], x);
      if r >= 0 then r else if q[|q| - 1] == x then |q| - 1 else -1
  }

  /** Position in the current process's queue of the sender a RECEIVE from `peer` takes. */
  function Waiting(k: Kernel, peer: Peer): (r: int)
    requires Shape(k)
    ensures -1 <= r < |k.queue[k.cur]|
  {
    match peer
    case Any => if k.queue[k.cur] == [] then -1 else 0
    case Interrupt => -1
    case From(s) => IndexOf(k.queue[k.cur], s)
  }

  /** RECEIVE by the current process from `peer` into cell m. */
  function Receive(k: Kernel, peer: Peer, m: nat): (r: (Kernel, Outcome))
    requires Shape(k) && m < |k.mem|
  {
    if peer == From(k.cur) then (k, AssertFailed)
    else if k.latched[k.cur] && !peer.From? then
      (k.(mem := k.mem[m := Message(INTERRUPT, HARD_INT, ZERO_BODY)], latched := k.latched[k.cur := false]), Done)
    else if Waiting(k, peer) >= 0 then
      var i := Waiting(k, peer);
      var sender := k.queue[k.cur][i];
      (k.(mem := k.mem[m := k.mem[k.st[sender].out]], st := k.st[sender := Ready],
          queue := k.queue[k.cur := Without(k.queue[k.cur], i)]), Done)
    else
      var (b, outcome) := Reschedule(k.(st := k.st[k.cur := Receiving(peer, m)]));
      (b, if outcome == Done && k.latched[k.cur] then AssertFailed else outcome)
  }

  /** A device interrupt for process p: it completes a waiting receive or is latched. */
  function Inform(k: Kernel, p: nat): (r: Kernel)
    requires Shape(k) && p < |k.st|
  {
    if k.st[p].Receiving? && !k.st[p].peer.From? then
      var cell := k.st[p].into;
      k.(mem := k.mem[cell := k.mem[cell].(source := INTERRUPT, kind := HARD_INT)],
         latched := k.latched[p := false], st := k.st[p := Ready])
    else
      k.(latched := k.latched[p := true])
  }

  /** The clock's accounting: one more tick, charged to the current process. */
  function Charge(k: Kernel): (r: Kernel)
    requires Shape(k)
  {
    k.(count := k.count + 1, ticks := k.ticks[k.cur := k.ticks[k.cur] - 1])
  }

  /** A clock interrupt; `nested` when it arrives while the kernel is already active. */
  function Tick(k: Kernel, key: bool, nested: bool): (r: (Kernel, Outcome))
    requires Shape(k)
  {
    var t := Charge(k);
    var u := if key then Inform(t, TASK_TTY) else t;
    if nested || u.ticks[k.cur] > 0 then (u, Done) else Reschedule(u)
  }

  /** The current process writes a message into cell m of its own memory. */
  function Compose(k: Kernel, m: nat, msg: Message): (r: Kernel)
    requires m < |k.mem|
  {
    k.(mem := k.mem[m := msg])
  }

  // ---------------------------------------------------------------- runs

  datatype Op =
    | OpSend(dest: int, m: nat)
    | OpReceive(peer: Peer, m: nat)
    | OpInform(p: nat)
    | OpTick(key: bool, nested: bool)
    | OpCompose(m: nat, msg: Message)

  /** The message cell exists, and so does the process, except that a message may be sent
      anywhere. */
  predicate Legal(k: Kernel, op: Op) {
    match op
    case OpSend(_, m) => m < |k.mem|
    case OpReceive(peer, m) => (peer.From? ==> peer.pid < |k.st|) && m < |k.mem|
    case OpInform(p) => p < |k.st|
    case OpTick(_, _) => true
    case OpCompose(m, _) => m < |k.mem|
  }

  ghost function Step(k: Kernel, op: Op): (r: (Kernel, Outcome))
    requires Shape(k) && Legal(k, op)
    ensures |r.0.st| == |r.0.queue| == |r.0.ticks| == |k.st|
    ensures op.OpSend? && r.1 == Done ==> OnTable(k, op.dest)
  {
    match op
    case OpSend(dest, m) => Send(Stamp(k, m), dest, m)
    case OpReceive(peer, m) => Receive(Stamp(k, m), peer, m)
    case OpInform(p) => (Inform(k, p), Done)
    case OpTick(key, nested) => Tick(k, key, nested)
    case OpCompose(m, msg) => (Compose(k, m, msg), Done)
  }

  /** The step op is legal and does not halt the machine. */
  ghost predicate Proceeds(k: Kernel, op: Op) {
    Shape(k) && Legal(k, op) && Step(k, op).1 == Done
  }

  /** The state after the steps `ops`, if all of them are legal and none halts the machine. */
  ghost function Exec(k: Kernel, ops: seq<Op>): (r: Option<Kernel>) {
    if ops == [] then Some(k)
    else
      var mid := Exec(k, ops[..|ops| - 1]);
      if mid.Some? && Proceeds(mid.value, ops[|ops| - 1])
      then Some(Step(mid.value, ops[|ops| - 1]).0)
      else None
  }

  /** The table as the boot code leaves it: process 0 is current, every process is runnable
      with as many ticks as its priority, except that the loop that fills the table runs
      past its end and sets every flag of the last process. */
  predicate Initial(k: Kernel) {
    && |k.st| >= 2
    && k.st == seq(|k.st|, p => if p == |k.st| - 1 then Off else Ready)
    && k.latched == seq(|k.st|, _ => false)
    && k.queue == seq(|k.st|, _ => [])
    && |k.prio| == |k.st| && (forall p | 0 <= p < |k.st| :: k.prio[p] > 0)
    && k.ticks == k.prio && k.cur == 0 && k.count == 0
  }
}
