/** Interrupts over whole runs: none is lost, and none is delivered twice. A process that waits for
    an interrupt is told at once; otherwise one bit remembers that there was one, until the process
    asks for a message from anybody or for an interrupt. */
module KernelInterrupts {
  import opened KernelState
  import opened KernelInvariant
  import opened KernelSteps

  /** The message that says that there was an interrupt. */
  const NOTICE := Message(INTERRUPT, HARD_INT, ZERO_BODY)

  /** A process with status s waits for anybody, or for an interrupt. */
  predicate Listens(s: Status) {
    s.Receiving? && !s.peer.From?
  }

  /** The step is an interrupt for p, or a clock tick that reports a key press to it. */
  predicate Notifies(op: Op, p: nat) {
    (op.OpInform? && op.p == p) || (op.OpTick? && op.key && p == TASK_TTY)
  }

  /** In this step p asks for a message from anybody, or for an interrupt. */
  predicate Asks(k: Kernel, op: Op, p: nat) {
    op.OpReceive? && !op.peer.From? && k.cur == p
  }

  /** The step tells p of an interrupt: one that comes while p listens, or one that is latched when
      p asks. */
  predicate Tells(k: Kernel, op: Op, p: nat)
    requires Shape(k) && p < |k.st|
  {
    (Notifies(op, p) && Listens(k.st[p])) || (Asks(k, op, p) && k.latched[p])
  }

  // ---------------------------------------------------------------- one step

  /** An interrupt reaches its process at once, with nothing but source and type of its message
      written, or it is latched, and the process stays as it is. */
  lemma NotifiedStep(k: Kernel, op: Op, p: nat)
    requires Inv(k) && Proceeds(k, op) && Notifies(op, p) && p < |k.st|
    ensures var k' := Step(k, op).0;
            && |k'.st| == |k'.latched| == |k.st| && |k'.mem| == |k.mem|
            && (if Listens(k.st[p]) then
                  var cell := k.st[p].into;
                  && k'.st[p] == Ready && !k'.latched[p]
                  && k'.mem[cell] == Message(INTERRUPT, HARD_INT, k.mem[cell].body)
                else k'.latched[p] && k'.st[p] == k.st[p])
  {
    hide Best, Reaches, IndexOf;
  }

  /** Whoever asks while an interrupt is latched is told, and goes on running; the latch is empty
      then, and nobody else is served. */
  lemma AskedStep(k: Kernel, op: Op)
    requires Inv(k) && Proceeds(k, op) && Asks(k, op, k.cur) && k.latched[k.cur]
    ensures var k' := Step(k, op).0;
            && |k'.st| == |k'.latched| == |k.st| && |k'.mem| == |k.mem|
            && k'.mem[op.m] == NOTICE && !k'.latched[k.cur]
            && k'.st == k.st && k'.queue == k.queue && k'.cur == k.cur
  {
    hide Best, Reaches, IndexOf;
  }

  /** The latch of p changes in no other way. */
  lemma LatchStep(k: Kernel, op: Op, p: nat)
    requires Inv(k) && Proceeds(k, op) && p < |k.st|
    ensures |Step(k, op).0.latched| == |k.st|
    ensures Step(k, op).0.latched[p] ==
              if Notifies(op, p) then !Listens(k.st[p]) else k.latched[p] && !Asks(k, op, p)
  {
    hide Best, Reaches, IndexOf;
  }

  // ---------------------------------------------------------------- runs

  /** Number of interrupts for p in the run. */
  function Notices(ops: seq<Op>, p: nat): nat {
    if ops == [] then 0 else Notices(ops[..|ops| - 1], p) + if Notifies(ops[|ops| - 1], p) then 1 else 0
  }

  /** How often p is told of one. */
  ghost function Told(k: Kernel, ops: seq<Op>, p: nat): nat
    requires Exec(k, ops).Some?
  {
    if ops == [] then 0
    else
      var mid := Exec(k, ops[..|ops| - 1]).value;
      Told(k, ops[..|ops| - 1], p) + if Shape(mid) && p < |mid.st| && Tells(mid, ops[|ops| - 1], p) then 1 else 0
  }

  /** How often an interrupt comes while one is latched already: the latch is one bit. */
  ghost function Merged(k: Kernel, ops: seq<Op>, p: nat): nat
    requires Exec(k, ops).Some?
  {
    if ops == [] then 0
    else
      var mid := Exec(k, ops[..|ops| - 1]).value;
      Merged(k, ops[..|ops| - 1], p)
      + if Shape(mid) && p < |mid.st| && Notifies(ops[|ops| - 1], p) && mid.latched[p] then 1 else 0
  }

  function Latch(k: Kernel, p: nat): nat {
    if p < |k.latched| && k.latched[p] then 1 else 0
  }

  /** Whoever listens has no interrupt latched. */
  lemma ListensUnlatched(k: Kernel, p: nat)
    requires Inv(k) && p < |k.st| && Listens(k.st[p])
    ensures !k.latched[p]
  {}

  lemma {:induction false} RunFacts(k: Kernel, ops: seq<Op>)
    requires Inv(k) && Exec(k, ops).Some?
    ensures Inv(Exec(k, ops).value) && |Exec(k, ops).value.st| == |k.st|
  {
    hide Inv, Step;
    if ops != [] {
      var n := |ops| - 1;
      RunFacts(k, ops[..n]);
      StepInv(Exec(k, ops[..n]).value, ops[n]);
      InvSizes(Exec(k, ops[..n]).value);
    }
  }

  lemma InvSizes(k: Kernel)
    requires Inv(k)
    ensures Shape(k)
  {}

  /** Conservation of interrupts over every run: each one is told once, or is merged with one that
      is latched, or is the one that is latched at the end. */
  lemma {:induction false} InterruptsConserved(k: Kernel, ops: seq<Op>, p: nat)
    requires Inv(k) && Exec(k, ops).Some? && p < |k.st|
    ensures Latch(k, p) + Notices(ops, p) == Told(k, ops, p) + Merged(k, ops, p) + Latch(Exec(k, ops).value, p)
  {
    if ops != [] {
      var n := |ops| - 1;
      var mid := Exec(k, ops[..n]).value;
      InterruptsConserved(k, ops[..n], p);
      RunFacts(k, ops[..n]);
      LatchStep(mid, ops[n], p);
      if Listens(mid.st[p]) {
        ListensUnlatched(mid, p);
      }
      RunnerListensNot(mid);
      hide Inv, Step, Exec;
    }
  }

  lemma RunnerListensNot(k: Kernel)
    requires Inv(k)
    ensures !Listens(k.st[k.cur])
  {}

  /** Nothing is told that has not come: with no interrupt for p in between, p is not told twice. */
  lemma ToldOnce(k: Kernel, op: Op, ops: seq<Op>, p: nat)
    requires Inv(k) && Proceeds(k, op) && p < |k.st| && Tells(k, op, p)
    requires Exec(Step(k, op).0, ops).Some? && Notices(ops, p) == 0
    ensures !Step(k, op).0.latched[p] && Told(Step(k, op).0, ops, p) == 0
  {
    StepInv(k, op);
    LatchStep(k, op, p);
    RunnerListensNot(k);
    hide Inv, Step, Exec;
    InvSizes(Step(k, op).0);
    InterruptsConserved(Step(k, op).0, ops, p);
  }

  /** p asks nowhere in the run. */
  ghost predicate NeverAsks(k: Kernel, ops: seq<Op>, p: nat)
    requires Exec(k, ops).Some?
  {
    ops != [] ==>
      NeverAsks(k, ops[..|ops| - 1], p) && !Asks(Exec(k, ops[..|ops| - 1]).value, ops[|ops| - 1], p)
  }

  /** What is latched stays latched until p asks. */
  lemma {:induction false} LatchedStays(k: Kernel, ops: seq<Op>, p: nat)
    requires Inv(k) && Exec(k, ops).Some? && p < |k.st| && k.latched[p] && NeverAsks(k, ops, p)
    ensures Inv(Exec(k, ops).value) && |Exec(k, ops).value.latched| == |k.st| && Exec(k, ops).value.latched[p]
  {
    RunFacts(k, ops);
    if ops != [] {
      var n := |ops| - 1;
      var mid := Exec(k, ops[..n]).value;
      LatchedStays(k, ops[..n], p);
      RunFacts(k, ops[..n]);
      LatchStep(mid, ops[n], p);
      if Listens(mid.st[p]) {
        ListensUnlatched(mid, p);
      }
    }
  }

  /** No interrupt is lost: one that comes for p is told at once, or p's next request for a message
      from anybody or for an interrupt, whenever that is, is answered by it. */
  lemma NoInterruptLost(k: Kernel, op: Op, ops: seq<Op>, ask: Op, p: nat)
    requires Inv(k) && Proceeds(k, op) && Notifies(op, p) && p < |k.st| && !Listens(k.st[p])
    requires Exec(Step(k, op).0, ops).Some? && NeverAsks(Step(k, op).0, ops, p)
    requires var end := Exec(Step(k, op).0, ops).value;
             Proceeds(end, ask) && Asks(end, ask, p)
    ensures var end := Exec(Step(k, op).0, ops).value;
            && |Step(end, ask).0.mem| == |end.mem| && Step(end, ask).0.mem[ask.m] == NOTICE
            && Step(end, ask).0.cur == p && |Step(end, ask).0.st| > p && Step(end, ask).0.st[p].Ready?
  {
    StepInv(k, op);
    NotifiedStep(k, op, p);
    var k1 := Step(k, op).0;
    LatchedStays(k1, ops, p);
    var end := Exec(k1, ops).value;
    AskedStep(end, ask);
    hide Step, Exec;
  }

  /** With no interrupt latched, a request for a message from anybody takes the first of the
      senders that wait: its message, and it out of the queue. */
  lemma HeadTaken(k: Kernel, m: nat)
    requires Inv(k) && Proceeds(k, OpReceive(Any, m)) && !k.latched[k.cur] && k.queue[k.cur] != []
    ensures var k', s := Step(k, OpReceive(Any, m)).0, k.queue[k.cur][0];
            && s < |k.st| && k.st[s].Sending? && k.st[s].to == k.cur && k.st[s].out < |k.mem|
            && |k'.mem| == |k.mem| && k'.mem[m] == Stamp(k, m).mem[k.st[s].out]
            && k'.st == k.st[s := Ready] && k'.queue == k.queue[k.cur := k.queue[k.cur][1..]] && k'.cur == k.cur
  {
    hide Best, Reaches, Acyclic, NoMissedRendezvous;
    assert Without(k.queue[k.cur], 0) == k.queue[k.cur][1..];
  }

  /** So of two requests of p for a message from anybody, with no interrupt for it from the first
      one on, the second one takes the first of the senders that wait then. */
  lemma SecondTakesHead(k: Kernel, m: nat, ops: seq<Op>, m': nat)
    requires Inv(k) && Proceeds(k, OpReceive(Any, m)) && Exec(Step(k, OpReceive(Any, m)).0, ops).Some?
    requires Notices(ops, k.cur) == 0
    requires var end := Exec(Step(k, OpReceive(Any, m)).0, ops).value;
             Proceeds(end, OpReceive(Any, m')) && end.cur == k.cur && end.queue[k.cur] != []
    ensures var end := Exec(Step(k, OpReceive(Any, m)).0, ops).value;
            var s, k' := end.queue[end.cur][0], Step(end, OpReceive(Any, m')).0;
            && s < |end.st| && end.st[s].Sending? && end.st[s].out < |end.mem|
            && |k'.mem| == |end.mem| && k'.mem[m'] == Stamp(end, m').mem[end.st[s].out]
            && k'.st == end.st[s := Ready] && k'.queue == end.queue[end.cur := end.queue[end.cur][1..]]
  {
    StepInv(k, OpReceive(Any, m));
    LatchStep(k, OpReceive(Any, m), k.cur);
    var k1 := Step(k, OpReceive(Any, m)).0;
    hide Step, Exec;
    InvSizes(k1);
    InterruptsConserved(k1, ops, k.cur);
    RunFacts(k1, ops);
    HeadTaken(Exec(k1, ops).value, m');
  }
}
