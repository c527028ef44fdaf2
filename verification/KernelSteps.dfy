/** Every kernel entry keeps the invariant; hence it holds in every reachable state. */
module KernelSteps {
  import opened KernelState
  import opened KernelInvariant

  lemma InitialInv(k: Kernel)
    requires Initial(k)
    ensures Inv(k)
  {
    forall p | 0 <= p < |k.st| ensures Drains(k.st, p) {
      assert DrainsBy(k.st, p, [p]);
    }
  }

  lemma RescheduleSound(k: Kernel)
    requires Sound(k)
    ensures var (k', outcome) := Reschedule(k);
            Sound(k') && (outcome == Done ==> Inv(k')) && (outcome == Done || outcome == Spin)
  {
    RescheduleChoice(k);
  }

  lemma WithoutElements<T>(q: seq<T>, i: nat)
    requires i < |q|
    ensures forall j | 0 <= j < |q| - 1 :: Without(q, i)[j] == q[if j < i then j else j + 1]
    ensures forall x | x in q && x != q[i] :: x in Without(q, i)
    ensures NoDuplicates(q) ==> NoDuplicates(Without(q, i)) && q[i] !in Without(q, i)
  {
    forall x | x in q && x != q[i] ensures x in Without(q, i) {
      var j :| 0 <= j < |q| && q[j] == x;
      assert Without(q, i)[if j < i then j else j - 1] == x;
    }
  }

  lemma WakeQueued(st: seq<Status>, queue: seq<seq<nat>>, r: nat, i: nat)
    requires |queue| == |st| && QueuedAreSenders(st, queue)
    requires r < |st| && i < |queue[r]| && NoDuplicates(queue[r])
    ensures QueuedAreSenders(st[queue[r][i] := Ready], queue[r := Without(queue[r], i)])
  {
    WithoutElements(queue[r], i);
    var queue' := queue[r := Without(queue[r], i)];
    forall r', i' {:trigger queue'[r'][i']} | 0 <= r' < |st| && 0 <= i' < |queue'[r']|
      ensures queue'[r'][i'] < |st| && queue'[r'][i'] != queue[r][i]
      ensures st[queue'[r'][i']].Sending? && st[queue'[r'][i']].to == r'
    {
      if r' == r {
        assert queue'[r'][i'] == queue[r][if i' < i then i' else i' + 1];
      } else {
        assert queue'[r'][i'] == queue[r'][i'];
      }
    }
  }

  lemma WakeSenders(st: seq<Status>, queue: seq<seq<nat>>, r: nat, i: nat)
    requires |queue| == |st| && SendersAreQueued(st, queue)
    requires r < |st| && i < |queue[r]| && queue[r][i] < |st|
    ensures SendersAreQueued(st[queue[r][i] := Ready], queue[r := Without(queue[r], i)])
  {
    WithoutElements(queue[r], i);
  }

  /** Removing a process from the queue it waits in and waking it. */
  lemma WakeSender(k: Kernel, r: nat, i: nat)
    requires Sound(k) && r < |k.st| && i < |k.queue[r]| && k.st[r].Ready?
    ensures Sound(k.(st := k.st[k.queue[r][i] := Ready], queue := k.queue[r := Without(k.queue[r], i)]))
  {
    AcyclicStop(k.st, k.queue[r][i], Ready);
    WakeQueued(k.st, k.queue, r, i);
    WakeSenders(k.st, k.queue, r, i);
    WithoutElements(k.queue[r], i);
  }

  lemma BlockQueued(st: seq<Status>, queue: seq<seq<nat>>, p: nat, dest: nat, m: nat)
    requires |queue| == |st| && QueuedAreSenders(st, queue)
    requires p < |st| && dest < |st| && st[p].Ready?
    ensures QueuedAreSenders(st[p := Sending(dest, m)], queue[dest := queue[dest] + [p]])
    ensures p !in queue[dest]
  {
    var queue' := queue[dest := queue[dest] + [p]];
    forall r, i {:trigger queue'[r][i]} | 0 <= r < |st| && 0 <= i < |queue'[r]|
      ensures queue'[r][i] == p ==> r == dest
      ensures queue'[r][i] != p ==> i < |queue[r]| && queue'[r][i] == queue[r][i]
    {
      if i < |queue[r]| {
        assert queue'[r][i] == queue[r][i];
      }
    }
  }

  lemma BlockSenders(st: seq<Status>, queue: seq<seq<nat>>, p: nat, dest: nat, m: nat)
    requires |queue| == |st| && SendersAreQueued(st, queue) && p < |st| && dest < |st|
    ensures SendersAreQueued(st[p := Sending(dest, m)], queue[dest := queue[dest] + [p]])
  {}

  lemma BlockMisses(st: seq<Status>, queue: seq<seq<nat>>, latched: seq<bool>, p: nat, dest: nat, m: nat)
    requires |queue| == |latched| == |st| && NoMissedRendezvous(st, queue, latched)
    requires p < |st| && dest < |st| && !Accepts(st[dest], p)
    ensures NoMissedRendezvous(st[p := Sending(dest, m)], queue[dest := queue[dest] + [p]], latched)
  {}

  lemma AppendNew<T>(q: seq<T>, x: T)
    requires NoDuplicates(q) && x !in q
    ensures NoDuplicates(q + [x])
  {}

  /** Appending the current process to the queue of a receiver that is not waiting for it. */
  lemma BlockSender(k: Kernel, dest: nat, m: nat)
    requires Inv(k) && dest < |k.st| && m < |k.mem| && dest != k.cur && k.st[dest] != Off
    requires !Reaches(k.st, dest, k.cur) && !Accepts(k.st[dest], k.cur)
    ensures Sound(k.(st := k.st[k.cur := Sending(dest, m)],
                     queue := k.queue[dest := k.queue[dest] + [k.cur]]))
  {
    AcyclicBlock(k.st, k.cur, dest, m);
    BlockQueued(k.st, k.queue, k.cur, dest, m);
    BlockSenders(k.st, k.queue, k.cur, dest, m);
    BlockMisses(k.st, k.queue, k.latched, k.cur, dest, m);
    AppendNew(k.queue[dest], k.cur);
  }

  lemma SendSound(k: Kernel, dest: int, m: nat)
    requires Inv(k) && Legal(k, OpSend(dest, m))
    ensures Sound(Send(k, dest, m).0) && (Send(k, dest, m).1 == Done ==> Inv(Send(k, dest, m).0))
  {
    if dest == k.cur || !OnTable(k, dest) || Reaches(k.st, dest, k.cur) {
    } else if Accepts(k.st[dest], k.cur) {
      AcyclicStop(k.st, dest, Ready);
    } else {
      BlockSender(k, dest, m);
      RescheduleSound(k.(st := k.st[k.cur := Sending(dest, m)], queue := k.queue[dest := k.queue[dest] + [k.cur]]));
    }
  }

  lemma BlockReceiver(k: Kernel, peer: Peer, m: nat)
    requires Inv(k) && Legal(k, OpReceive(peer, m)) && peer != From(k.cur)
    requires !(k.latched[k.cur] && !peer.From?) && Waiting(k, peer) < 0
    ensures Sound(k.(st := k.st[k.cur := Receiving(peer, m)]))
  {
    AcyclicStop(k.st, k.cur, Receiving(peer, m));
  }

  lemma ReceiveSound(k: Kernel, peer: Peer, m: nat)
    requires Inv(k) && Legal(k, OpReceive(peer, m))
    ensures Sound(Receive(k, peer, m).0) && (Receive(k, peer, m).1 == Done ==> Inv(Receive(k, peer, m).0))
  {
    if peer == From(k.cur) {
    } else if k.latched[k.cur] && !peer.From? {
    } else if Waiting(k, peer) >= 0 {
      WakeSender(k, k.cur, Waiting(k, peer));
    } else {
      BlockReceiver(k, peer, m);
      RescheduleSound(k.(st := k.st[k.cur := Receiving(peer, m)]));
    }
  }

  /** The assertions of a receive that blocks hold, except the last one: that no interrupt is
      latched fails exactly when the receiver waits for one certain sender with an interrupt
      latched. Asking to receive from oneself fails, too. */
  lemma ReceiveAsserts(k: Kernel, peer: Peer, m: nat)
    requires Inv(k) && Legal(k, OpReceive(peer, m))
    ensures Receive(k, peer, m).1 == AssertFailed <==>
              || peer == From(k.cur)
              || (peer.From? && k.latched[k.cur] && Waiting(k, peer) < 0
                  && exists q | 0 <= q < |k.st| :: q != k.cur && k.st[q].Ready?)
  {
    hide ExactQueues, Acyclic, NoMissedRendezvous, Best;
    var blocked := k.(st := k.st[k.cur := Receiving(peer, m)]);
    RescheduleChoice(blocked);
    assert forall q | 0 <= q < |k.st| && q != k.cur :: blocked.st[q] == k.st[q];
  }

  /** After boot an interrupt is latched for the current process, which then asks for a message
      from one that has sent nothing: the assertion fails. */
  lemma LatchedReceiveFails(k: Kernel, m: nat)
    requires Initial(k) && |k.st| >= 3 && m < |k.mem|
    ensures Proceeds(k, OpInform(k.cur))
    ensures var k1 := Step(k, OpInform(k.cur)).0;
            Inv(k1) && Legal(k1, OpReceive(From(1), m)) && Step(k1, OpReceive(From(1), m)).1 == AssertFailed
  {
    InitialInv(k);
    StepInv(k, OpInform(k.cur));
    var k1 := Step(k, OpInform(k.cur)).0;
    StampInv(k1, m);
    assert k1.st[1].Ready? && k1.latched[k1.cur] && k1.queue[k1.cur] == [];
    hide Inv, Sound, Receive;
    ReceiveAsserts(Stamp(k1, m), From(1), m);
  }

  lemma InformSound(k: Kernel, p: nat)
    requires Sound(k) && p < |k.st|
    ensures Sound(Inform(k, p)) && (Inv(k) ==> Inv(Inform(k, p)))
  {
    if k.st[p].Receiving? && !k.st[p].peer.From? {
      AcyclicStop(k.st, p, Ready);
    }
  }

  lemma ChargeInv(k: Kernel)
    requires Inv(k)
    ensures Inv(Charge(k))
  {}

  lemma RescheduleRunnable(u: Kernel)
    requires Inv(u)
    ensures Reschedule(u).1 == Done && Inv(Reschedule(u).0)
  {
    RescheduleChoice(u);
    RescheduleSound(u);
  }

  lemma TickSound(k: Kernel, key: bool, nested: bool)
    requires Inv(k)
    ensures Tick(k, key, nested).1 == Done && Inv(Tick(k, key, nested).0)
  {
    ChargeInv(k);
    InformSound(Charge(k), TASK_TTY);
    RescheduleRunnable(if key then Inform(Charge(k), TASK_TTY) else Charge(k));
  }

  lemma StampInv(k: Kernel, m: nat)
    requires Inv(k) && m < |k.mem|
    ensures Inv(Stamp(k, m))
  {}

  /** The invariant is inductive, whatever the step and its arguments. */
  lemma StepInv(k: Kernel, op: Op)
    requires Inv(k) && Legal(k, op)
    ensures Sound(Step(k, op).0) && (Step(k, op).1 == Done ==> Inv(Step(k, op).0))
  {
    match op
    case OpSend(dest, m) =>
      StampInv(k, m);
      SendSound(Stamp(k, m), dest, m);
    case OpReceive(peer, m) =>
      StampInv(k, m);
      ReceiveSound(Stamp(k, m), peer, m);
    case OpInform(p) => InformSound(k, p);
    case OpTick(key, nested) => TickSound(k, key, nested);
    case OpCompose(m, msg) =>
  }

  /** Queue exactness, acyclicity, no missed rendezvous and a runnable current process in
      every state the machine can reach. */
  lemma {:induction false} ReachableInv(k: Kernel, ops: seq<Op>)
    requires Initial(k) && Exec(k, ops).Some?
    ensures Inv(Exec(k, ops).value)
  {
    if ops == [] {
      InitialInv(k);
    } else {
      ReachableInv(k, ops[..|ops| - 1]);
      StepInv(Exec(k, ops[..|ops| - 1]).value, ops[|ops| - 1]);
    }
  }
}
