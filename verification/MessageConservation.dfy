/** No message is lost, duplicated, altered or misdirected: over any run from boot, the
    messages accepted by SEND are those delivered plus those still held by blocked senders.
    This needs every process to keep its hands off the cells blocked processes wait on. */
module MessageConservation {
  import opened Options
  import opened KernelState
  import opened KernelInvariant
  import opened KernelSteps

  datatype Letter = Letter(from: nat, to: nat, msg: Message)

  /** The message cell a blocked process waits on, or -1. */
  function Cell(s: Status): int {
    match s
    case Sending(_, out) => out
    case Receiving(_, into) => into
    case _ => -1
  }

  /** No blocked process waits on the cell. */
  predicate Unparked(st: seq<Status>, cell: nat) {
    forall p | 0 <= p < |st| :: Cell(st[p]) != cell
  }

  /** The step does not touch a cell that a blocked process waits on. */
  predicate Private(k: Kernel, op: Op) {
    (op.OpSend? || op.OpReceive? || op.OpCompose?) ==> Unparked(k.st, op.m)
  }

  /** Blocked processes wait on different cells, and a held message names its sender. */
  ghost predicate Unaliased(st: seq<Status>, mem: seq<Message>) {
    && (forall p, q | 0 <= p < q < |st| && Cell(st[p]) >= 0 :: Cell(st[p]) != Cell(st[q]))
    && (forall p | 0 <= p < |st| :: Cell(st[p]) < |mem|)
    && (forall p | 0 <= p < |st| && st[p].Sending? :: mem[st[p].out].source == p)
  }

  ghost predicate Safe(k: Kernel) {
    Inv(k) && Unaliased(k.st, k.mem)
  }

  // ---------------------------------------------------------------- accepted, delivered, held

  ghost function Accepted(k: Kernel, op: Op): multiset<Letter>
    requires Shape(k) && Legal(k, op)
  {
    if op.OpSend? && Step(k, op).1 == Done
    then multiset{Letter(k.cur, op.dest, Stamp(k, op.m).mem[op.m])} else multiset{}
  }

  /** The process whose message a RECEIVE takes in this step, if any. */
  function TakenFrom(k: Kernel, op: Op): Option<nat>
    requires Shape(k)
  {
    if op.OpReceive? && op.peer != From(k.cur) && !(k.latched[k.cur] && !op.peer.From?) && Waiting(k, op.peer) >= 0
    then Some(k.queue[k.cur][Waiting(k, op.peer)]) else None
  }

  ghost function Delivered(k: Kernel, op: Op): multiset<Letter>
    requires Shape(k) && Legal(k, op)
  {
    if op.OpSend? && Step(k, op).1 == Done && Accepts(k.st[op.dest], k.cur) then
      multiset{Letter(k.cur, op.dest, Stamp(k, op.m).mem[op.m])}
    else if TakenFrom(k, op).Some? then
      var s := TakenFrom(k, op).value;
      multiset{Letter(s, k.cur, k.mem[k.st[s].out])}
    else multiset{}
  }

  function Slot(st: seq<Status>, mem: seq<Message>, p: nat): multiset<Letter>
    requires p < |st| && (st[p].Sending? ==> st[p].out < |mem|)
  {
    if st[p].Sending? then multiset{Letter(p, st[p].to, mem[st[p].out])} else multiset{}
  }

  predicate OutsExist(st: seq<Status>, mem: seq<Message>) {
    forall p | 0 <= p < |st| && st[p].Sending? :: st[p].out < |mem|
  }

  function HeldBy(st: seq<Status>, mem: seq<Message>, n: nat): multiset<Letter>
    requires n <= |st| && OutsExist(st, mem)
  {
    if n == 0 then multiset{} else HeldBy(st, mem, n - 1) + Slot(st, mem, n - 1)
  }

  /** The messages of the processes that are blocked sending. */
  function Held(k: Kernel): multiset<Letter>
    requires Shape(k)
  {
    HeldBy(k.st, k.mem, |k.st|)
  }

  // ---------------------------------------------------------------- one step

  lemma {:induction false} HeldSame(st: seq<Status>, mem: seq<Message>, st': seq<Status>, mem': seq<Message>, n: nat)
    requires n <= |st| == |st'| && OutsExist(st, mem) && OutsExist(st', mem')
    requires forall p | 0 <= p < n :: Slot(st, mem, p) == Slot(st', mem', p)
    ensures HeldBy(st, mem, n) == HeldBy(st', mem', n)
  {
    if n > 0 {
      HeldSame(st, mem, st', mem', n - 1);
    }
  }

  lemma Shuffle<T>(a: multiset<T>, b: multiset<T>, c: multiset<T>)
    ensures (a + b) + c == (a + c) + b
  {}

  /** Changing the status or the message of x changes x's share of what is held. */
  lemma {:induction false} HeldChange(st: seq<Status>, mem: seq<Message>, st': seq<Status>, mem': seq<Message>, n: nat, x: nat)
    requires x < n <= |st| == |st'| && OutsExist(st, mem) && OutsExist(st', mem')
    requires forall p | 0 <= p < n && p != x :: Slot(st, mem, p) == Slot(st', mem', p)
    ensures HeldBy(st', mem', n) + Slot(st, mem, x) == HeldBy(st, mem, n) + Slot(st', mem', x)
  {
    var last, last' := Slot(st, mem, n - 1), Slot(st', mem', n - 1);
    if x == n - 1 {
      HeldSame(st, mem, st', mem', n - 1);
      Shuffle(HeldBy(st, mem, n - 1), last', last);
    } else {
      HeldChange(st, mem, st', mem', n - 1, x);
      Shuffle(HeldBy(st', mem', n - 1), last, Slot(st, mem, x));
      Shuffle(HeldBy(st, mem, n - 1), last, Slot(st', mem', x));
    }
  }

  /** Writing a cell nobody waits on changes no held message. */
  lemma WriteKeeps(st: seq<Status>, mem: seq<Message>, m: nat, msg: Message)
    requires Unaliased(st, mem) && m < |mem| && Unparked(st, m)
    ensures Unaliased(st, mem[m := msg])
    ensures HeldBy(st, mem[m := msg], |st|) == HeldBy(st, mem, |st|)
  {
    HeldSame(st, mem, st, mem[m := msg], |st|);
  }

  /** Filling the cell of a waiting receiver and waking it. */
  lemma FillKeeps(st: seq<Status>, mem: seq<Message>, p: nat, msg: Message)
    requires Unaliased(st, mem) && p < |st| && st[p].Receiving? && st[p].into < |mem|
    ensures Unaliased(st[p := Ready], mem[st[p].into := msg])
    ensures HeldBy(st[p := Ready], mem[st[p].into := msg], |st|) == HeldBy(st, mem, |st|)
  {
    forall q | 0 <= q < |st| && q != p ensures Cell(st[q]) != st[p].into {
      assert q < p ==> Cell(st[q]) >= 0 ==> Cell(st[q]) != Cell(st[p]);
    }
    HeldSame(st, mem, st[p := Ready], mem[st[p].into := msg], |st|);
  }

  lemma BlockSenderKeeps(st: seq<Status>, mem: seq<Message>, p: nat, dest: nat, m: nat)
    requires Unaliased(st, mem) && p < |st| && st[p].Ready? && m < |mem| && Unparked(st, m)
    requires mem[m].source == p
    ensures Unaliased(st[p := Sending(dest, m)], mem)
    ensures HeldBy(st[p := Sending(dest, m)], mem, |st|)
            == HeldBy(st, mem, |st|) + multiset{Letter(p, dest, mem[m])}
  {
    HeldChange(st, mem, st[p := Sending(dest, m)], mem, |st|, p);
  }

  lemma BlockReceiverKeeps(st: seq<Status>, mem: seq<Message>, p: nat, peer: Peer, m: nat)
    requires Unaliased(st, mem) && p < |st| && st[p].Ready? && m < |mem| && Unparked(st, m)
    ensures Unaliased(st[p := Receiving(peer, m)], mem)
    ensures HeldBy(st[p := Receiving(peer, m)], mem, |st|) == HeldBy(st, mem, |st|)
  {
    HeldSame(st, mem, st[p := Receiving(peer, m)], mem, |st|);
  }

  /** Copying a held message into a free cell and waking its sender. */
  lemma TakeKeeps(st: seq<Status>, mem: seq<Message>, p: nat, m: nat)
    requires Unaliased(st, mem) && p < |st| && st[p].Sending? && m < |mem| && Unparked(st, m)
    ensures var (st', mem') := (st[p := Ready], mem[m := mem[st[p].out]]);
            && Unaliased(st', mem')
            && HeldBy(st', mem', |st|) + multiset{Letter(p, st[p].to, mem[st[p].out])} == HeldBy(st, mem, |st|)
  {
    HeldChange(st, mem, st[p := Ready], mem[m := mem[st[p].out]], |st|, p);
  }

  lemma SendConserves(k: Kernel, dest: int, m: nat)
    requires Safe(k) && Legal(k, OpSend(dest, m)) && Unparked(k.st, m)
    requires k.mem[m].source == k.cur && Send(k, dest, m).1 == Done
    ensures var (k', _) := Send(k, dest, m);
            && Unaliased(k'.st, k'.mem)
            && HeldBy(k'.st, k'.mem, |k.st|)
                 + (if Accepts(k.st[dest], k.cur) then multiset{Letter(k.cur, dest, k.mem[m])} else multiset{})
               == HeldBy(k.st, k.mem, |k.st|) + multiset{Letter(k.cur, dest, k.mem[m])}
  {
    hide Reaches, Unaliased, HeldBy, ExactQueues, Acyclic, NoMissedRendezvous;
    if Accepts(k.st[dest], k.cur) {
      FillKeeps(k.st, k.mem, dest, k.mem[m]);
    } else {
      BlockSenderKeeps(k.st, k.mem, k.cur, dest, m);
    }
  }

  lemma ReceiveConserves(k: Kernel, peer: Peer, m: nat)
    requires Safe(k) && Legal(k, OpReceive(peer, m)) && Unparked(k.st, m)
    requires Receive(k, peer, m).1 == Done
    ensures var (k', _) := Receive(k, peer, m);
            && Unaliased(k'.st, k'.mem)
            && HeldBy(k'.st, k'.mem, |k.st|) + Delivered(k, OpReceive(peer, m)) == HeldBy(k.st, k.mem, |k.st|)
  {
    hide Reaches, Unaliased, HeldBy, Acyclic, NoMissedRendezvous;
    if k.latched[k.cur] && !peer.From? {
      WriteKeeps(k.st, k.mem, m, Message(INTERRUPT, HARD_INT, ZERO_BODY));
    } else if Waiting(k, peer) >= 0 {
      TakeKeeps(k.st, k.mem, k.queue[k.cur][Waiting(k, peer)], m);
    } else {
      BlockReceiverKeeps(k.st, k.mem, k.cur, peer, m);
    }
  }

  lemma InformConserves(k: Kernel, p: nat)
    requires Safe(k) && p < |k.st|
    ensures Unaliased(Inform(k, p).st, Inform(k, p).mem)
    ensures HeldBy(Inform(k, p).st, Inform(k, p).mem, |k.st|) == HeldBy(k.st, k.mem, |k.st|)
  {
    hide Unaliased, HeldBy, ExactQueues, Acyclic, NoMissedRendezvous;
    if k.st[p].Receiving? {
      FillKeeps(k.st, k.mem, p, k.mem[k.st[p].into].(source := INTERRUPT, kind := HARD_INT));
    }
  }

  /** Stamping the caller's number on its message. */
  lemma StampKeeps(k: Kernel, m: nat)
    requires Safe(k) && m < |k.mem| && Unparked(k.st, m)
    ensures Safe(Stamp(k, m)) && Held(Stamp(k, m)) == Held(k)
  {
    StampInv(k, m);
    WriteKeeps(k.st, k.mem, m, k.mem[m].(source := k.cur));
  }

  ghost predicate Conserves(k: Kernel, op: Op)
    requires Shape(k) && Legal(k, op)
  {
    var k' := Step(k, op).0;
    Shape(k') && Unaliased(k'.st, k'.mem) && Held(k') + Delivered(k, op) == Held(k) + Accepted(k, op)
  }

  lemma SendStepConserves(k: Kernel, dest: int, m: nat)
    requires Safe(k) && Proceeds(k, OpSend(dest, m)) && Unparked(k.st, m)
    ensures Conserves(k, OpSend(dest, m))
  {
    hide Reaches, Unaliased, HeldBy, ExactQueues, Acyclic, NoMissedRendezvous;
    StampKeeps(k, m);
    SendConserves(Stamp(k, m), dest, m);
    SendSound(Stamp(k, m), dest, m);
  }

  lemma ReceiveStepConserves(k: Kernel, peer: Peer, m: nat)
    requires Safe(k) && Proceeds(k, OpReceive(peer, m)) && Unparked(k.st, m)
    ensures Conserves(k, OpReceive(peer, m))
  {
    hide Reaches, Unaliased, HeldBy, ExactQueues, Acyclic, NoMissedRendezvous;
    StampKeeps(k, m);
    ReceiveConserves(Stamp(k, m), peer, m);
    StampedDelivery(k, peer, m);
    ReceiveSound(Stamp(k, m), peer, m);
  }

  lemma TickStepConserves(k: Kernel, key: bool, nested: bool)
    requires Safe(k)
    ensures Conserves(k, OpTick(key, nested))
  {
    hide Reaches, Unaliased, HeldBy, ExactQueues, Acyclic, NoMissedRendezvous;
    ChargeInv(k);
    InformConserves(Charge(k), TASK_TTY);
    TickSound(k, key, nested);
  }

  /** Conservation in one step. */
  lemma StepConserves(k: Kernel, op: Op)
    requires Safe(k) && Proceeds(k, op) && Private(k, op)
    ensures Safe(Step(k, op).0)
    ensures Held(Step(k, op).0) + Delivered(k, op) == Held(k) + Accepted(k, op)
  {
    hide Reaches, Unaliased, HeldBy, ExactQueues, Acyclic, NoMissedRendezvous, Send, Receive, Tick, Reschedule;
    StepInv(k, op);
    match op
    case OpSend(dest, m) => SendStepConserves(k, dest, m);
    case OpReceive(peer, m) => ReceiveStepConserves(k, peer, m);
    case OpInform(p) => InformConserves(k, p);
    case OpTick(key, nested) => TickStepConserves(k, key, nested);
    case OpCompose(m, msg) => WriteKeeps(k.st, k.mem, m, msg);
  }

  /** Stamping the receiver's own cell does not change what it is going to receive. */
  lemma StampedDelivery(k: Kernel, peer: Peer, m: nat)
    requires Safe(k) && m < |k.mem| && Unparked(k.st, m) && Legal(k, OpReceive(peer, m))
    ensures Legal(Stamp(k, m), OpReceive(peer, m))
    ensures Delivered(Stamp(k, m), OpReceive(peer, m)) == Delivered(k, OpReceive(peer, m))
  {
    var op := OpReceive(peer, m);
    assert TakenFrom(Stamp(k, m), op) == TakenFrom(k, op);
    if TakenFrom(k, op).Some? {
      assert Cell(k.st[TakenFrom(k, op).value]) != m;
    }
  }

  /** A delivered message is in its addressee's cell after the step, carries its true sender's
      number, and the addressee was listening to that sender. */
  lemma DeliveredArrives(k: Kernel, op: Op, letter: Letter)
    requires Safe(k) && Proceeds(k, op) && Private(k, op) && letter in Delivered(k, op)
    ensures letter.msg.source == letter.from
    ensures op.OpSend? ==>
              && letter.from == k.cur && letter.to == op.dest && Accepts(k.st[op.dest], k.cur)
              && Step(k, op).0.mem[k.st[op.dest].into] == letter.msg
    ensures op.OpReceive? ==>
              && letter.to == k.cur && (op.peer == Any || op.peer == From(letter.from))
              && k.st[letter.from].Sending? && k.st[letter.from].to == k.cur
              && Step(k, op).0.mem[op.m] == letter.msg
  {
    match op
    case OpSend(dest, m) =>
    case OpReceive(peer, m) =>
      StampedDelivery(k, peer, m);
      assert Cell(k.st[TakenFrom(k, op).value]) != m;
    case _ =>
  }

  // ---------------------------------------------------------------- whole runs

  ghost predicate PrivateRun(k: Kernel, ops: seq<Op>)
  {
    ops != [] ==>
      && PrivateRun(k, ops[..|ops| - 1])
      && (Exec(k, ops[..|ops| - 1]).Some? ==> Private(Exec(k, ops[..|ops| - 1]).value, ops[|ops| - 1]))
  }

  ghost function AcceptedIn(k: Kernel, ops: seq<Op>): multiset<Letter>
    requires Exec(k, ops).Some?
  {
    if ops == [] then multiset{}
    else AcceptedIn(k, ops[..|ops| - 1]) + Accepted(Exec(k, ops[..|ops| - 1]).value, ops[|ops| - 1])
  }

  ghost function DeliveredIn(k: Kernel, ops: seq<Op>): multiset<Letter>
    requires Exec(k, ops).Some?
  {
    if ops == [] then multiset{}
    else DeliveredIn(k, ops[..|ops| - 1]) + Delivered(Exec(k, ops[..|ops| - 1]).value, ops[|ops| - 1])
  }

  lemma {:induction false} NothingHeld(k: Kernel, n: nat)
    requires Initial(k) && n <= |k.st|
    ensures OutsExist(k.st, k.mem) && HeldBy(k.st, k.mem, n) == multiset{}
  {
    if n > 0 {
      NothingHeld(k, n - 1);
    }
  }

  /** Conservation over whole runs from boot. */
  lemma {:induction false} MessagesConserved(k: Kernel, ops: seq<Op>)
    requires Initial(k) && Exec(k, ops).Some? && PrivateRun(k, ops)
    ensures Safe(Exec(k, ops).value)
    ensures AcceptedIn(k, ops) == DeliveredIn(k, ops) + Held(Exec(k, ops).value)
  {
    hide Step, Unaliased, HeldBy, ExactQueues, Acyclic, NoMissedRendezvous;
    if ops == [] {
      InitialSafe(k);
    } else {
      var init := ops[..|ops| - 1];
      var op := ops[|ops| - 1];
      MessagesConserved(k, init);
      var mid := Exec(k, init).value;
      StepConserves(mid, op);
      Rebalance(AcceptedIn(k, init), DeliveredIn(k, init), Held(mid), Held(Step(mid, op).0),
                Accepted(mid, op), Delivered(mid, op));
    }
  }

  lemma InitialSafe(k: Kernel)
    requires Initial(k)
    ensures Safe(k) && Held(k) == multiset{}
  {
    InitialInv(k);
    NothingHeld(k, |k.st|);
  }

  lemma Rebalance<T>(a: multiset<T>, d: multiset<T>, h: multiset<T>, h': multiset<T>, a': multiset<T>, d': multiset<T>)
    requires a == d + h && h' + d' == h + a'
    ensures a + a' == (d + d') + h'
  {
    assert a + a' == d + (h + a');
    assert d + (h' + d') == (d + d') + h';
  }
}
