/** What a step leaves alone: whose status may change and how, who runs afterwards, which message
    cells are written, and how time is kept. */
module KernelFrame {
  import opened KernelState
  import opened KernelInvariant
  import opened KernelSteps
  import opened KernelInterrupts

  // ---------------------------------------------------------------- statuses

  /** What p waits for comes with this step: the caller sends to it and it listens to the caller,
      the caller takes its message, or it listens for an interrupt that comes. */
  ghost predicate Served(k: Kernel, op: Op, p: nat)
    requires Shape(k) && p < |k.st|
  {
    || (op.OpSend? && op.dest == p && Accepts(k.st[p], k.cur))
    || (op.OpReceive? && k.st[p].Sending? && k.st[p].to == k.cur && (op.peer == Any || op.peer == From(p)))
    || (Notifies(op, p) && Listens(k.st[p]))
  }

  /** Nothing of what the caller asks for is there, so that it has to wait. */
  ghost predicate MustWait(k: Kernel, op: Op)
    requires Shape(k)
  {
    || (op.OpSend? && 0 <= op.dest < |k.st| && !Accepts(k.st[op.dest], k.cur))
    || (op.OpReceive? && !(Asks(k, op, k.cur) && k.latched[k.cur])
        && forall p | 0 <= p < |k.st| :: !Served(k, op, p))
  }

  /** A process other than the caller keeps its status, unless it is served; then it is runnable. */
  lemma OthersStatus(k: Kernel, op: Op, p: nat)
    requires Inv(k) && Proceeds(k, op) && p < |k.st| && p != k.cur
    ensures |Step(k, op).0.st| == |k.st|
    ensures Step(k, op).0.st[p] == k.st[p] || (Served(k, op, p) && Step(k, op).0.st[p] == Ready)
  {
    hide Best, Reaches, IndexOf;
  }

  /** At most one process is served, and it is when a message is sent to it that it listens for, or
      an interrupt comes. */
  lemma ServedStatus(k: Kernel, op: Op, p: nat)
    requires Inv(k) && Proceeds(k, op) && p < |k.st| && Served(k, op, p) && !op.OpReceive?
    ensures |Step(k, op).0.st| == |k.st| && Step(k, op).0.st[p] == Ready
  {
    hide Best, Reaches, IndexOf;
  }

  lemma QueueOfOne(k: Kernel, s: nat)
    requires Inv(k) && s < |k.st| && k.st[s].Sending? && k.st[s].to == k.cur
    ensures s in k.queue[k.cur]
  {
    assert Waits(k.st, k.queue, s);
  }

  /** The caller is blocked, in exactly the way it asked for, if and only if it has to wait. */
  lemma CallerStatus(k: Kernel, op: Op)
    requires Inv(k) && Proceeds(k, op)
    ensures |Step(k, op).0.st| == |k.st|
    ensures Step(k, op).0.st[k.cur]
            == if MustWait(k, op) then (if op.OpSend? then Sending(op.dest, op.m) else Receiving(op.peer, op.m)) else Ready
  {
    hide Best, Reaches, Acyclic;
    if op.OpReceive? {
      ReceiveServes(k, op.peer, op.m);
    }
  }

  /** There is a message for the receiver exactly when somebody is served by it. */
  lemma ReceiveServes(k: Kernel, peer: Peer, m: nat)
    requires Inv(k)
    ensures Waiting(k, peer) >= 0 <==> exists p | 0 <= p < |k.st| :: Served(k, OpReceive(peer, m), p)
    ensures Waiting(k, peer) >= 0 ==> Served(k, OpReceive(peer, m), k.queue[k.cur][Waiting(k, peer)])
  {
    hide Acyclic, NoMissedRendezvous;
    forall p | 0 <= p < |k.st| && Served(k, OpReceive(peer, m), p) ensures Waiting(k, peer) >= 0 {
      QueueOfOne(k, p);
    }
    if Waiting(k, peer) >= 0 {
      var s := k.queue[k.cur][Waiting(k, peer)];
      assert k.st[s].Sending? && k.st[s].to == k.cur;
      assert Served(k, OpReceive(peer, m), s);
    }
  }

  // ---------------------------------------------------------------- the processor

  /** The clock may take the processor away: a plain tick, with the time of the caller used up. */
  predicate TimeUp(k: Kernel, op: Op)
    requires Shape(k)
  {
    op.OpTick? && !op.nested && k.ticks[k.cur] <= 1
  }

  /** The caller keeps the processor, unless it has to wait or its time is up; then the scheduler
      chooses. */
  ghost predicate RunsNext(k: Kernel, op: Op, k': Kernel)
    requires Shape(k)
  {
    && |k'.st| == |k'.ticks| == |k.st|
    && if MustWait(k, op) || TimeUp(k, op) then IsPick(k'.st, k'.ticks, k'.cur) else k'.cur == k.cur
  }

  /** Time is charged to the caller by the clock alone, and given back to everybody at once, by the
      scheduler, when no runnable process has any left. */
  ghost predicate TimeKept(k: Kernel, op: Op, k': Kernel)
    requires Shape(k)
  {
    && |k'.st| == |k'.ticks| == |k'.prio| == |k.st| && k'.prio == k.prio
    && k'.count == k.count + (if op.OpTick? then 1 else 0)
    && var charged := if op.OpTick? then k.ticks[k.cur := k.ticks[k.cur] - 1] else k.ticks;
    && (k'.ticks == charged
        || (k'.ticks == k.prio && (MustWait(k, op) || TimeUp(k, op))
            && forall q | 0 <= q < |k.st| && k'.st[q].Ready? :: charged[q] <= 0))
  }

  lemma SendTime(k: Kernel, dest: int, m: nat)
    requires Inv(k) && Proceeds(k, OpSend(dest, m))
    ensures RunsNext(k, OpSend(dest, m), Step(k, OpSend(dest, m)).0) && TimeKept(k, OpSend(dest, m), Step(k, OpSend(dest, m)).0)
  {
    hide Reaches, ExactQueues, Acyclic, NoMissedRendezvous, Reschedule;
    StampInv(k, m);
    if !Accepts(k.st[dest], k.cur) {
      RescheduleChoice(Stamp(k, m).(st := k.st[k.cur := Sending(dest, m)], queue := k.queue[dest := k.queue[dest] + [k.cur]]));
    }
  }

  lemma ReceiveTime(k: Kernel, peer: Peer, m: nat)
    requires Inv(k) && Proceeds(k, OpReceive(peer, m))
    ensures RunsNext(k, OpReceive(peer, m), Step(k, OpReceive(peer, m)).0)
    ensures TimeKept(k, OpReceive(peer, m), Step(k, OpReceive(peer, m)).0)
  {
    ReceiveServes(k, peer, m);
    assert Waiting(Stamp(k, m), peer) == Waiting(k, peer);
    hide Reaches, ExactQueues, Acyclic, NoMissedRendezvous, Reschedule, Served, Waiting;
    StampInv(k, m);
    RescheduleChoice(Stamp(k, m).(st := k.st[k.cur := Receiving(peer, m)]));
  }

  lemma TickTime(k: Kernel, key: bool, nested: bool)
    requires Inv(k)
    ensures RunsNext(k, OpTick(key, nested), Step(k, OpTick(key, nested)).0)
    ensures TimeKept(k, OpTick(key, nested), Step(k, OpTick(key, nested)).0)
  {
    hide Reaches, ExactQueues, Acyclic, NoMissedRendezvous, Reschedule;
    RescheduleChoice(if key then Inform(Charge(k), TASK_TTY) else Charge(k));
  }

  lemma WhoRuns(k: Kernel, op: Op)
    requires Inv(k) && Proceeds(k, op)
    ensures RunsNext(k, op, Step(k, op).0) && TimeKept(k, op, Step(k, op).0)
  {
    hide Send, Receive, Tick, RunsNext, TimeKept, ExactQueues, Acyclic, NoMissedRendezvous;
    match op {
      case OpSend(dest, m) => SendTime(k, dest, m);
      case OpReceive(peer, m) => ReceiveTime(k, peer, m);
      case OpInform(p) => QuietTime(k, op, Inform(k, p));
      case OpTick(key, nested) => TickTime(k, key, nested);
      case OpCompose(m, msg) => QuietTime(k, op, Compose(k, m, msg));
    }
  }

  lemma QuietTime(k: Kernel, op: Op, k': Kernel)
    requires Shape(k) && (op.OpInform? || op.OpCompose?) && |k'.st| == |k.st|
    requires k'.ticks == k.ticks && k'.prio == k.prio && k'.cur == k.cur && k'.count == k.count
    ensures RunsNext(k, op, k') && TimeKept(k, op, k')
  {}

  /** Number of clock ticks in the run. */
  function Ticks(ops: seq<Op>): nat {
    if ops == [] then 0 else Ticks(ops[..|ops| - 1]) + if ops[|ops| - 1].OpTick? then 1 else 0
  }

  /** The clock counts every tick, nested or not. */
  lemma {:induction false} ClockCounts(k: Kernel, ops: seq<Op>)
    requires Inv(k) && Exec(k, ops).Some?
    ensures Exec(k, ops).value.count == k.count + Ticks(ops)
  {
    if ops != [] {
      var n := |ops| - 1;
      ClockCounts(k, ops[..n]);
      RunFacts(k, ops[..n]);
      WhoRuns(Exec(k, ops[..n]).value, ops[n]);
    }
  }

  // ---------------------------------------------------------------- message cells

  /** The cell is written in this step: it is the one the caller names, or the one that a process
      which is served waits for its message in. */
  ghost predicate Written(k: Kernel, op: Op, cell: nat)
    requires Shape(k)
  {
    || ((op.OpSend? || op.OpReceive? || op.OpCompose?) && op.m == cell)
    || exists p | 0 <= p < |k.st| :: Served(k, op, p) && k.st[p].Receiving? && k.st[p].into == cell
  }

  /** Every other message cell is as it was; and of the one that the caller sends, only the source
      is written, unless that cell is the receiver's, too. */
  lemma CellsKept(k: Kernel, op: Op, cell: nat)
    requires Inv(k) && Proceeds(k, op) && cell < |k.mem|
    ensures |Step(k, op).0.mem| == |k.mem|
    ensures !Written(k, op, cell) ==> Step(k, op).0.mem[cell] == k.mem[cell]
    ensures op.OpSend? && cell == op.m ==> Step(k, op).0.mem[cell] == k.mem[cell].(source := k.cur)
    ensures op.OpReceive? && cell == op.m && MustWait(k, op) ==> Step(k, op).0.mem[cell] == k.mem[cell].(source := k.cur)
    ensures op.OpCompose? && cell == op.m ==> Step(k, op).0.mem[cell] == op.msg
  {
    hide Best, Reaches, Acyclic;
    if op.OpReceive? {
      ReceiveServes(k, op.peer, op.m);
    }
  }
}
