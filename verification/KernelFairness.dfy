/** Bounded waiting: blocked senders are served in order of arrival, and a runnable process
    is given the processor after a bounded number of clock ticks. */
module KernelFairness {
  import opened KernelState
  import opened KernelInvariant
  import opened KernelSteps

  // ---------------------------------------------------------------- senders

  /** In this step r receives from anybody and takes a message from its queue. */
  predicate ServesAny(k: Kernel, op: Op, r: nat)
    requires Shape(k)
  {
    op.OpReceive? && op.peer == Any && k.cur == r && !k.latched[r] && k.queue[r] != []
  }

  /** What a step can do to r's queue: append the caller, or remove one sender, and the one
      removed by a receive from anybody is the first. */
  ghost predicate QueueChange(k: Kernel, op: Op, r: nat, q': seq<nat>)
    requires Shape(k) && r < |k.st|
  {
    var q := k.queue[r];
    && (|| q' == q
        || (q' == q + [k.cur] && k.cur !in q)
        || (k.cur == r && op.OpReceive? && exists i: nat | i < |q| :: q' == Without(q, i)))
    && (ServesAny(k, op, r) ==> q' == Without(q, 0))
  }

  lemma SendQueue(k: Kernel, dest: int, m: nat, r: nat)
    requires Inv(k) && Legal(k, OpSend(dest, m)) && r < |k.st|
    ensures QueueChange(k, OpSend(dest, m), r, Step(k, OpSend(dest, m)).0.queue[r])
  {
    hide Reaches, Acyclic, NoMissedRendezvous, ExactQueues, Best;
    forall i | 0 <= i < |k.queue[r]| ensures k.queue[r][i] != k.cur {}
  }

  lemma ReceiveQueue(k: Kernel, peer: Peer, m: nat, r: nat)
    requires Inv(k) && Proceeds(k, OpReceive(peer, m)) && r < |k.st|
    ensures QueueChange(k, OpReceive(peer, m), r, Step(k, OpReceive(peer, m)).0.queue[r])
  {
    hide Reaches, Acyclic, NoMissedRendezvous, ExactQueues, Best;
    var i := Waiting(k, peer);
    assert Waiting(Stamp(k, m), peer) == i;
    if i >= 0 && !(k.latched[k.cur] && !peer.From?) {
      assert Step(k, OpReceive(peer, m)).0.queue == k.queue[k.cur := Without(k.queue[k.cur], i)];
    } else {
      assert Step(k, OpReceive(peer, m)).0.queue == k.queue;
    }
  }

  lemma QueueStep(k: Kernel, op: Op, r: nat)
    requires Inv(k) && Proceeds(k, op) && r < |k.st|
    ensures QueueChange(k, op, r, Step(k, op).0.queue[r])
  {
    hide Reaches, Acyclic, NoMissedRendezvous, ExactQueues, Send, Receive, Best;
    match op
    case OpSend(dest, m) => SendQueue(k, dest, m, r);
    case OpReceive(peer, m) => ReceiveQueue(k, peer, m, r);
    case _ =>
  }

  lemma {:induction false} IndexInAppended(q: seq<nat>, x: nat, y: nat)
    requires x in q
    ensures IndexOf(q + [y], x) == IndexOf(q, x)
  {
    assert (q + [y])[..|q|] == q;
  }

  /** Removing another element never moves x back, and removing the first moves it forward. */
  lemma IndexInWithout(q: seq<nat>, x: nat, i: nat)
    requires NoDuplicates(q) && i < |q| && x in q && x in Without(q, i)
    ensures IndexOf(Without(q, i), x) <= IndexOf(q, x)
    ensures i == 0 ==> IndexOf(Without(q, i), x) == IndexOf(q, x) - 1
  {
    var j, j' := IndexOf(q, x), IndexOf(Without(q, i), x);
    WithoutElements(q, i);
    var back := if j' < i then j' else j' + 1;
    assert Without(q, i)[j'] == q[back];
    assert back == j;
  }

  /** No overtaking: while s stays blocked sending to r, its position never grows, and each
      receive from anybody that r completes moves it one place forward. */
  lemma NoOvertaking(k: Kernel, op: Op, r: nat, s: nat)
    requires Inv(k) && Proceeds(k, op) && r < |k.st|
    requires s in k.queue[r] && s in Step(k, op).0.queue[r]
    ensures IndexOf(Step(k, op).0.queue[r], s) + (if ServesAny(k, op, r) then 1 else 0) <= IndexOf(k.queue[r], s)
  {
    hide Reaches, Acyclic, NoMissedRendezvous, Step;
    QueueStep(k, op, r);
    var q, q' := k.queue[r], Step(k, op).0.queue[r];
    if ServesAny(k, op, r) {
      IndexInWithout(q, s, 0);
    } else if q' == q {
    } else if q' == q + [k.cur] {
      IndexInAppended(q, s, k.cur);
    } else {
      var i: nat :| i < |q| && q' == Without(q, i);
      IndexInWithout(q, s, i);
    }
  }

  ghost predicate StaysQueued(k: Kernel, ops: seq<Op>, r: nat, s: nat) {
    && Exec(k, ops).Some? && Shape(Exec(k, ops).value)
    && r < |Exec(k, ops).value.queue| && s in Exec(k, ops).value.queue[r]
    && (ops != [] ==> StaysQueued(k, ops[..|ops| - 1], r, s))
  }

  /** How often r completes a receive from anybody in the run. */
  ghost function Served(k: Kernel, ops: seq<Op>, r: nat): nat
    requires Exec(k, ops).Some?
  {
    if ops == [] then 0
    else
      var mid := Exec(k, ops[..|ops| - 1]).value;
      Served(k, ops[..|ops| - 1], r) + if ServesAny(mid, ops[|ops| - 1], r) then 1 else 0
  }

  /** A sender at position i of r's queue is taken no later than the receive from anybody
      number i + 1 that r completes. */
  lemma {:induction false} BoundedSenderWait(k: Kernel, ops: seq<Op>, r: nat, s: nat)
    requires Inv(k) && StaysQueued(k, ops, r, s)
    ensures Inv(Exec(k, ops).value) && r < |k.queue| && s in k.queue[r]
    ensures Served(k, ops, r) + IndexOf(Exec(k, ops).value.queue[r], s) <= IndexOf(k.queue[r], s)
  {
    hide Inv, Step;
    if ops != [] {
      var init, op := ops[..|ops| - 1], ops[|ops| - 1];
      BoundedSenderWait(k, init, r, s);
      StepInv(Exec(k, init).value, op);
      NoOvertaking(Exec(k, init).value, op, r, s);
    }
  }

  // ---------------------------------------------------------------- the processor

  function Positive(x: int): nat {
    if x > 0 then x else 0
  }

  /** Sum of the positive times of the first n processes, p not counted. */
  function TimeOfOthers(time: seq<int>, p: nat, n: nat): nat
    requires n <= |time|
  {
    if n == 0 then 0
    else TimeOfOthers(time, p, n - 1) + if n - 1 == p then 0 else Positive(time[n - 1])
  }

  lemma {:induction false} TimeCharged(time: seq<int>, p: nat, n: nat, c: nat)
    requires n <= |time| && c < |time| && c != p
    ensures TimeOfOthers(time[c := time[c] - 1], p, n)
            == TimeOfOthers(time, p, n) - if c < n && time[c] > 0 then 1 else 0
  {
    if n > 0 {
      TimeCharged(time, p, n - 1, c);
    }
  }

  /** The ticks the others can still use before p is chosen: what they have left, and a whole
      refill if p has nothing left itself. */
  function Ahead(k: Kernel, p: nat): nat
    requires Shape(k) && p < |k.st|
  {
    TimeOfOthers(k.ticks, p, |k.st|) + if k.ticks[p] > 0 then 0 else TimeOfOthers(k.prio, p, |k.st|)
  }

  /** One more when nested ticks have used up the running process's time. */
  function Credit(k: Kernel, p: nat): nat
    requires Shape(k) && p < |k.st|
  {
    Ahead(k, p) + if k.ticks[k.cur] > 0 then 0 else 1
  }

  predicate Kept(k: Kernel, p: nat) {
    Shape(k) && p < |k.st| && k.st[p].Ready? && k.cur != p
  }

  lemma RescheduleCredit(k: Kernel, p: nat)
    requires Sound(k) && p < |k.st| && k.st[p].Ready? && Reschedule(k).1 == Done
    ensures Reschedule(k).0.cur != p ==> Credit(Reschedule(k).0, p) <= Ahead(k, p)
  {
    RescheduleChoice(k);
  }

  /** While p is runnable and not chosen, each clock tick that is not nested uses up credit,
      and nothing that processes do to each other gives any back. */
  lemma StepCredit(k: Kernel, op: Op, p: nat)
    requires Inv(k) && Proceeds(k, op) && Kept(k, p) && Kept(Step(k, op).0, p)
    ensures Credit(Step(k, op).0, p) + (if op.OpTick? && !op.nested then 1 else 0) <= Credit(k, p)
  {
    hide Reaches, ExactQueues, Acyclic, NoMissedRendezvous, Ahead;
    match op
    case OpSend(dest, m) =>
      SendCredit(k, dest, m, p);
    case OpReceive(peer, m) =>
      ReceiveCredit(k, peer, m, p);
    case OpInform(q) =>
      SameTimes(k, Inform(k, q), p);
    case OpTick(key, nested) =>
      TickCredit(k, key, nested, p);
    case OpCompose(m, msg) =>
      SameTimes(k, Compose(k, m, msg), p);
  }

  lemma SameTimes(k: Kernel, k': Kernel, p: nat)
    requires Shape(k) && Shape(k') && p < |k.st| == |k'.st|
    requires k'.ticks == k.ticks && k'.prio == k.prio
    ensures Ahead(k', p) == Ahead(k, p)
  {}

  lemma SendCredit(k: Kernel, dest: int, m: nat, p: nat)
    requires Inv(k) && Proceeds(k, OpSend(dest, m)) && Kept(k, p) && Kept(Step(k, OpSend(dest, m)).0, p)
    ensures Credit(Step(k, OpSend(dest, m)).0, p) <= Credit(k, p)
  {
    hide Reaches, ExactQueues, Acyclic, NoMissedRendezvous, Ahead;
    var s := Stamp(k, m);
    StampInv(k, m);
    if Accepts(k.st[dest], k.cur) {
      SameTimes(k, Step(k, OpSend(dest, m)).0, p);
    } else {
      BlockSender(s, dest, m);
      var b := s.(st := k.st[k.cur := Sending(dest, m)], queue := k.queue[dest := k.queue[dest] + [k.cur]]);
      SameTimes(k, b, p);
      RescheduleChoice(b);
      RescheduleCredit(b, p);
    }
  }

  lemma ReceiveCredit(k: Kernel, peer: Peer, m: nat, p: nat)
    requires Inv(k) && Proceeds(k, OpReceive(peer, m)) && Kept(k, p) && Kept(Step(k, OpReceive(peer, m)).0, p)
    ensures Credit(Step(k, OpReceive(peer, m)).0, p) <= Credit(k, p)
  {
    hide Reaches, ExactQueues, Acyclic, NoMissedRendezvous, Ahead;
    var s := Stamp(k, m);
    StampInv(k, m);
    if (s.latched[k.cur] && !peer.From?) || Waiting(s, peer) >= 0 {
      SameTimes(k, Step(k, OpReceive(peer, m)).0, p);
    } else {
      BlockReceiver(s, peer, m);
      var b := s.(st := k.st[k.cur := Receiving(peer, m)]);
      SameTimes(k, b, p);
      RescheduleCredit(b, p);
    }
  }

  lemma TickCredit(k: Kernel, key: bool, nested: bool, p: nat)
    requires Inv(k) && Kept(k, p) && Kept(Tick(k, key, nested).0, p)
    ensures Credit(Tick(k, key, nested).0, p) + (if nested then 0 else 1) <= Credit(k, p)
  {
    hide Reaches, ExactQueues, Acyclic, NoMissedRendezvous;
    ChargeInv(k);
    TimeCharged(k.ticks, p, |k.st|, k.cur);
    var t := Charge(k);
    InformSound(t, TASK_TTY);
    var u := if key then Inform(t, TASK_TTY) else t;
    SameTimes(t, u, p);
    RescheduleRunnable(u);
    RescheduleCredit(u, p);
  }

  ghost predicate KeptWaiting(k: Kernel, ops: seq<Op>, p: nat) {
    && Exec(k, ops).Some? && Kept(Exec(k, ops).value, p)
    && (ops != [] ==> KeptWaiting(k, ops[..|ops| - 1], p))
  }

  /** The clock ticks of a run that did not arrive inside the kernel. */
  function PlainTicks(ops: seq<Op>): nat {
    if ops == [] then 0
    else PlainTicks(ops[..|ops| - 1])
         + if ops[|ops| - 1].OpTick? && !ops[|ops| - 1].nested then 1 else 0
  }

  /** A process that stays runnable without getting the processor sees no more clock ticks
      than its credit, however the other processes block, unblock and are interrupted. */
  lemma {:induction false} BoundedDispatch(k: Kernel, ops: seq<Op>, p: nat)
    requires Inv(k) && KeptWaiting(k, ops, p)
    ensures Inv(Exec(k, ops).value) && Kept(k, p)
    ensures PlainTicks(ops) + Credit(Exec(k, ops).value, p) <= Credit(k, p)
  {
    hide Inv, Step, Credit;
    if ops != [] {
      var init, op := ops[..|ops| - 1], ops[|ops| - 1];
      BoundedDispatch(k, init, p);
      StepInv(Exec(k, init).value, op);
      StepCredit(Exec(k, init).value, op, p);
    }
  }

  /** The credit is at most what the others have left and their priorities, plus one tick
      only when nested ticks have used up the running process's time. */
  lemma CreditBound(k: Kernel, p: nat)
    requires Inv(k) && p < |k.st|
    ensures Credit(k, p) <= TimeOfOthers(k.ticks, p, |k.st|) + TimeOfOthers(k.prio, p, |k.st|)
                            + if k.ticks[k.cur] > 0 then 0 else 1
  {}

  lemma RescheduleTime(k: Kernel)
    requires |k.ticks| == |k.prio| == |k.st| && forall p | 0 <= p < |k.st| :: k.prio[p] > 0
    ensures var (k', outcome) := Reschedule(k);
            outcome == Done ==> |k'.ticks| > k'.cur && k'.ticks[k'.cur] > 0
  {
    RescheduleChoice(k);
  }

  /** Without nested ticks the running process always has time left between two steps. */
  lemma PlainStepTime(k: Kernel, op: Op)
    requires Inv(k) && Proceeds(k, op) && k.ticks[k.cur] > 0 && !(op.OpTick? && op.nested)
    ensures var k' := Step(k, op).0; |k'.ticks| > k'.cur && k'.ticks[k'.cur] > 0
  {
    hide Reaches, ExactQueues, Acyclic, NoMissedRendezvous, Reschedule;
    match op
    case OpSend(dest, m) =>
      var s := Stamp(k, m);
      RescheduleTime(s.(st := k.st[k.cur := Sending(dest, m)], queue := k.queue[dest := k.queue[dest] + [k.cur]]));
    case OpReceive(peer, m) =>
      RescheduleTime(Stamp(k, m).(st := k.st[k.cur := Receiving(peer, m)]));
    case OpTick(key, nested) =>
      var t := Charge(k);
      RescheduleTime(if key then Inform(t, TASK_TTY) else t);
    case _ =>
  }
}
