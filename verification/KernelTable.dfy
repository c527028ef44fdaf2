/** The kernel's process table as it is laid out in memory: flags, sentinels, and sending
    queues linked through the table. Every entry point is proved to do exactly what the
    abstract step does; every assertion of the original is proved where it stands. */
module KernelTable {
  import opened KernelState
  import opened KernelInvariant
  import opened KernelSteps

  /** Null pointer; other pointers are indices into the table or into message memory. */
  const NIL := -1

  const SEND := 1
  const RECEIVE := 2

  datatype Flag = SendingFlag | ReceivingFlag | OtherFlag

  datatype Pcb = Pcb(
    ticks: int, priority: int, flags: set<Flag>, msg: int, recvFrom: int, sendTo: int,
    hasInt: bool, qSending: int, nextSending: int)

  /** Process codes that are not process numbers, for a table of n processes. */
  function AnyCode(n: nat): int { n + 10 }
  function NoTask(n: nat): int { n + 20 }

  function PeerCode(peer: Peer, n: nat): int {
    match peer
    case Any => AnyCode(n)
    case Interrupt => INTERRUPT
    case From(p) => p
  }

  predicate StatusRep(p: Pcb, s: Status, n: nat) {
    match s
    case Ready => p.flags == {} && p.msg == NIL && p.recvFrom == NoTask(n) && p.sendTo == NoTask(n)
    case Sending(to, out) =>
      p.flags == {SendingFlag} && p.msg == out && p.recvFrom == NoTask(n) && p.sendTo == to
    case Receiving(peer, into) =>
      p.flags == {ReceivingFlag} && p.msg == into && p.recvFrom == PeerCode(peer, n) && p.sendTo == NoTask(n)
    case Off =>
      p.flags == {SendingFlag, ReceivingFlag, OtherFlag} && p.msg == NIL
      && p.recvFrom == NoTask(n) && p.sendTo == NoTask(n)
  }

  /** The list that starts at `head` and follows `nextSending` is q. */
  predicate Linked(table: seq<Pcb>, head: int, q: seq<nat>) {
    && head == (if q == [] then NIL else q[0])
    && (forall i | 0 <= i < |q| :: q[i] < |table|)
    && (forall i | 0 <= i < |q| :: table[q[i]].nextSending == if i + 1 < |q| then q[i + 1] else NIL)
  }

  lemma LinkedNext(table: seq<Pcb>, q: seq<nat>, i: nat)
    requires i < |q| && Linked(table, q[0], q)
    ensures q[i] < |table| && table[q[i]].nextSending == if i + 1 < |q| then q[i + 1] else NIL
  {}

  ghost predicate Represents(table: seq<Pcb>, k: Kernel) {
    && |k.st| == |k.latched| == |k.queue| == |k.ticks| == |k.prio| == |table|
    && (forall p | 0 <= p < |table| ::
          && StatusRep(table[p], k.st[p], |table|)
          && table[p].ticks == k.ticks[p] && table[p].priority == k.prio[p] && table[p].hasInt == k.latched[p])
    && (forall r | 0 <= r < |table| :: Linked(table, table[r].qSending, k.queue[r]))
  }

  lemma FlaggedSender(table: seq<Pcb>, k: Kernel, p: nat)
    requires Represents(table, k) && p < |table|
    ensures SendingFlag in table[p].flags && k.st[p] != Off ==>
              k.st[p].Sending? && table[p].msg != NIL && table[p].sendTo == k.st[p].to
    ensures k.st[p] == Off ==> SendingFlag in table[p].flags && table[p].sendTo == NoTask(|table|)
    ensures SendingFlag !in table[p].flags ==> !k.st[p].Sending?
  {}

  lemma SenderFields(table: seq<Pcb>, k: Kernel, p: nat)
    requires Represents(table, k) && p < |table| && k.st[p].Sending?
    ensures table[p].msg != NIL && table[p].sendTo == k.st[p].to
  {
    assert StatusRep(table[p], k.st[p], |table|);
  }

  lemma ListAt(table: seq<Pcb>, k: Kernel, r: nat)
    requires Represents(table, k) && r < |table|
    ensures Linked(table, table[r].qSending, k.queue[r])
  {}

  /** The flag and destination of s tell exactly whether s stands in r's queue. */
  lemma SendsTo(table: seq<Pcb>, k: Kernel, s: nat, r: nat)
    requires Represents(table, k) && Sound(k) && s < |table| && r < |table|
    ensures SendingFlag in table[s].flags && table[s].sendTo == r <==> s in k.queue[r]
    ensures table[s].sendTo == r ==> k.st[s].Sending?
  {
    assert StatusRep(table[s], k.st[s], |table|);
    assert k.st[s].Sending? ==> Waits(k.st, k.queue, s);
  }

  lemma {:induction false} FirstIndex(q: seq<nat>, x: nat, i: nat)
    requires i < |q| && q[i] == x && x !in q[..i]
    ensures IndexOf(q, x) == i
  {
    var first := IndexOf(q, x);
    forall j | 0 <= j < i ensures q[j] != x {
      assert q[..i][j] == q[j];
    }
    forall j | 0 <= j < first ensures q[j] != x {
      assert q[..first][j] == q[j];
    }
  }

  /** The table says nothing of message memory, the current process or the clock. */
  lemma TableOnly(table: seq<Pcb>, k: Kernel, k': Kernel)
    requires Represents(table, k) && k' == k.(mem := k'.mem, cur := k'.cur, count := k'.count)
    ensures Represents(table, k')
  {}

  lemma FlagsAndTicks(table: seq<Pcb>, k: Kernel, p: nat)
    requires Represents(table, k) && p < |table|
    ensures table[p].flags == {} <==> k.st[p].Ready?
    ensures table[p].ticks == k.ticks[p]
  {}

  lemma TicksRep(table: seq<Pcb>, table': seq<Pcb>, k: Kernel, ticks: seq<int>)
    requires Represents(table, k) && |table'| == |ticks| == |table|
    requires forall p | 0 <= p < |table| :: table'[p] == table[p].(ticks := ticks[p])
    ensures Represents(table', k.(ticks := ticks))
  {
    forall r | 0 <= r < |table| ensures Linked(table', table'[r].qSending, k.queue[r]) {
      assert Linked(table, table[r].qSending, k.queue[r]);
    }
    forall p | 0 <= p < |table| ensures StatusRep(table'[p], k.st[p], |table|) {
      assert StatusRep(table[p], k.st[p], |table|);
    }
  }

  /** New status and latch for p; the lists are untouched. */
  lemma StatusSet(table: seq<Pcb>, k: Kernel, p: nat, e: Pcb, s: Status)
    requires Represents(table, k) && p < |table| && StatusRep(e, s, |table|)
    requires e.ticks == table[p].ticks && e.priority == table[p].priority
    requires e.qSending == table[p].qSending && e.nextSending == table[p].nextSending
    ensures Represents(table[p := e], k.(st := k.st[p := s], latched := k.latched[p := e.hasInt]))
  {
    var table' := table[p := e];
    forall r | 0 <= r < |table| ensures Linked(table', table'[r].qSending, k.queue[r]) {
      assert Linked(table, table[r].qSending, k.queue[r]);
    }
  }

  /** Every queued process waits in one queue only, and in dest's queue only once; `st` is a
      table in which s waits nowhere. */
  ghost predicate Linkable(st: seq<Status>, queue: seq<seq<nat>>, dest: nat) {
    |st| == |queue| && QueuedAreSenders(st, queue) && dest < |queue| && NoDuplicates(queue[dest])
  }

  lemma QueuesDisjoint(st: seq<Status>, queue: seq<seq<nat>>, r: nat, r': nat)
    requires |st| == |queue| && QueuedAreSenders(st, queue) && r < |queue| && r' < |queue| && r != r'
    ensures forall x | x in queue[r] :: x !in queue[r']
  {
    forall x | x in queue[r] ensures x !in queue[r'] {
      assert st[x].to == r;
    }
  }

  /** A status does not depend on the list pointers. */
  lemma StatusOnly(p: Pcb, p': Pcb, s: Status, n: nat)
    requires StatusRep(p, s, n)
    requires p' == p.(qSending := p'.qSending, nextSending := p'.nextSending)
    ensures StatusRep(p', s, n)
  {}

  /** Linking s behind the last element of dest's list. */
  function Append(table: seq<Pcb>, q: seq<nat>, dest: nat, s: nat): seq<Pcb>
    requires dest < |table| && s < |table| && forall i | 0 <= i < |q| :: q[i] < |table|
  {
    var table1 := if q == [] then table[dest := table[dest].(qSending := s)]
                  else table[q[|q| - 1] := table[q[|q| - 1]].(nextSending := s)];
    table1[s := table1[s].(nextSending := NIL)]
  }

  lemma AppendOwn(table: seq<Pcb>, q: seq<nat>, dest: nat, s: nat)
    requires dest < |table| && s < |table| && Linked(table, table[dest].qSending, q)
    requires NoDuplicates(q) && s !in q
    ensures var table' := Append(table, q, dest, s); Linked(table', table'[dest].qSending, q + [s])
  {
    forall i | 0 <= i < |q| ensures q[i] != s { assert q[i] in q; }
  }

  lemma AppendOther(table: seq<Pcb>, q: seq<nat>, dest: nat, s: nat, r: nat, other: seq<nat>)
    requires dest < |table| && s < |table| && Linked(table, table[dest].qSending, q)
    requires r < |table| && r != dest && Linked(table, table[r].qSending, other)
    requires s !in other && forall x | x in q :: x !in other
    ensures var table' := Append(table, q, dest, s); Linked(table', table'[r].qSending, other)
  {
    forall i | 0 <= i < |other| ensures other[i] != s && (q != [] ==> other[i] != q[|q| - 1]) {
      assert other[i] in other;
    }
  }

  lemma AppendRep(table: seq<Pcb>, k: Kernel, st: seq<Status>, dest: nat, s: nat)
    requires Represents(table, k) && Linkable(st, k.queue, dest) && s < |st| && !st[s].Sending?
    ensures Represents(Append(table, k.queue[dest], dest, s), k.(queue := k.queue[dest := k.queue[dest] + [s]]))
  {
    hide Linked, StatusRep;
    var q := k.queue[dest];
    var table' := Append(table, q, dest, s);
    assert s !in q;
    AppendOwn(table, q, dest, s);
    forall r | 0 <= r < |table| && r != dest ensures Linked(table', table'[r].qSending, k.queue[r]) {
      QueuesDisjoint(st, k.queue, dest, r);
      AppendOther(table, q, dest, s, r, k.queue[r]);
    }
    forall p | 0 <= p < |table| ensures StatusRep(table'[p], k.st[p], |table|) {
      StatusOnly(table[p], table'[p], k.st[p], |table|);
    }
  }

  /** Unlinking element i of r's list. */
  function Unlink(table: seq<Pcb>, q: seq<nat>, r: nat, i: nat): seq<Pcb>
    requires r < |table| && i < |q| && forall i | 0 <= i < |q| :: q[i] < |table|
  {
    var next := table[q[i]].nextSending;
    var table1 := if i == 0 then table[r := table[r].(qSending := next)]
                  else table[q[i - 1] := table[q[i - 1]].(nextSending := next)];
    table1[q[i] := table1[q[i]].(nextSending := NIL)]
  }

  lemma UnlinkOwn(table: seq<Pcb>, q: seq<nat>, r: nat, i: nat)
    requires r < |table| && i < |q| && Linked(table, table[r].qSending, q) && NoDuplicates(q)
    ensures var table' := Unlink(table, q, r, i); Linked(table', table'[r].qSending, Without(q, i))
  {
    var q' := Without(q, i);
    var table' := Unlink(table, q, r, i);
    forall j | 0 <= j < |q'|
      ensures q'[j] < |table| && table'[q'[j]].nextSending == if j + 1 < |q'| then q'[j + 1] else NIL
    {
      var j' := if j < i then j else j + 1;
      assert q'[j] == q[j'] && q[j'] != q[i];
      assert table[q[j']].nextSending == if j' + 1 < |q| then q[j' + 1] else NIL;
      assert table[q[i]].nextSending == if i + 1 < |q| then q[i + 1] else NIL;
      if j == i - 1 {
        assert table'[q'[j]].nextSending == table[q[i]].nextSending;
      } else {
        assert i > 0 ==> q[j'] != q[i - 1];
        assert table'[q'[j]].nextSending == table[q[j']].nextSending;
      }
      if j + 1 < |q'| {
        assert q'[j + 1] == q[if j + 1 < i then j + 1 else j + 2];
      }
    }
    assert table'[r].qSending == if q' == [] then NIL else q'[0];
    assert Linked(table', table'[r].qSending, q');
  }

  lemma UnlinkOther(table: seq<Pcb>, q: seq<nat>, r: nat, i: nat, r': nat, other: seq<nat>)
    requires r < |table| && i < |q| && Linked(table, table[r].qSending, q)
    requires r' < |table| && r' != r && Linked(table, table[r'].qSending, other)
    requires forall x | x in q :: x !in other
    ensures var table' := Unlink(table, q, r, i); Linked(table', table'[r'].qSending, other)
  {
    forall j | 0 <= j < |other| ensures other[j] != q[i] && (i > 0 ==> other[j] != q[i - 1]) {
      assert other[j] in other;
    }
  }

  lemma UnlinkRep(table: seq<Pcb>, k: Kernel, r: nat, i: nat)
    requires Represents(table, k) && Linkable(k.st, k.queue, r) && i < |k.queue[r]|
    ensures Represents(Unlink(table, k.queue[r], r, i), k.(queue := k.queue[r := Without(k.queue[r], i)]))
  {
    hide Linked, StatusRep;
    var q := k.queue[r];
    var table' := Unlink(table, q, r, i);
    UnlinkOwn(table, q, r, i);
    forall r' | 0 <= r' < |table| && r' != r ensures Linked(table', table'[r'].qSending, k.queue[r']) {
      QueuesDisjoint(k.st, k.queue, r, r');
      UnlinkOther(table, q, r, i, r', k.queue[r']);
    }
    forall p | 0 <= p < |table| ensures StatusRep(table'[p], k.st[p], |table|) {
      StatusOnly(table[p], table'[p], k.st[p], |table|);
    }
  }

  /** What the deadlock test finds: nothing, the cycle that a send would close, or that it has to
      look outside of the table. */
  datatype Verdict = Free | Cycle(chain: seq<nat>) | LeavesTable

  class Machine {
    const pcbTable: array<Pcb>
    const mem: array<Message>
    var pcbPtr: nat
    var ticksCount: int

    /** The abstract state the fields above represent. */
    ghost var k: Kernel

    ghost predicate Valid()
      reads this, pcbTable, mem
    {
      && Sound(k)
      && |k.st| == pcbTable.Length
      && Represents(pcbTable[..], k)
      && mem[..] == k.mem && pcbPtr == k.cur && ticksCount == k.count
    }

    /** The state between two kernel entries: the current process is runnable. */
    ghost predicate Running()
      reads this, pcbTable, mem
    {
      Valid() && Inv(k)
    }

    /** Walks the chain of blocked senders from dest. The walk ends because the wait-for
        graph is acyclic, or because it leaves the table at once. */
    method DeadlockCheck(src: nat, dest: int) returns (verdict: Verdict)
      requires Valid() && src < pcbTable.Length && src != dest && !k.st[src].Sending?
      ensures verdict.LeavesTable? <==> !OnTable(k, dest)
      ensures OnTable(k, dest) ==> (verdict.Cycle? <==> Reaches(k.st, dest, src))
      ensures verdict.Cycle? ==>
                IsChain(k.st, verdict.chain) && verdict.chain[0] == dest && verdict.chain[|verdict.chain| - 1] == src
    {
      hide Represents;
      if !(0 <= dest < pcbTable.Length) {
        return LeavesTable;
      }
      ghost var t := pcbTable[..];
      assert Drains(k.st, dest);
      ghost var path :| DrainsBy(k.st, dest, path);
      var p: nat := dest;
      ghost var i := 0;
      while SendingFlag in pcbTable[p].flags
        invariant 0 <= i < |path| && p == path[i] && p < pcbTable.Length && (i > 0 ==> k.st[dest] != Off && k.st[p] != Off)
        invariant src !in path[..i + 1]
        decreases |path| - i
      {
        FlaggedSender(t, k, p);
        assert k.st[p] != Off ==> i + 1 < |path| && Edge(k.st, path, i);
        if pcbTable[p].sendTo == src {
          ChainVisits(k.st, path, i + 1);
          ChainPrefix(k.st, path, i + 2);
          forall j | 0 <= j <= i
            ensures path[j] < |t| && t[path[j]].msg != NIL && t[path[j]].sendTo == path[j + 1]
          {
            assert Edge(k.st, path, j);
            SenderFields(t, k, path[j]);
          }
          var chain := WaitChain(src, dest, path, i + 1);
          return Cycle(chain);
        }
        if !(0 <= pcbTable[p].sendTo < pcbTable.Length) {
          return LeavesTable;
        }
        p := pcbTable[p].sendTo;
        i := i + 1;
      }
      FlaggedSender(t, k, p);
      assert i < |path| - 1 ==> Edge(k.st, path, i);
      NotReached(k.st, dest, path, src);
      return Free;
    }

    /** The cycle the deadlock message prints: from dest along the senders to src. */
    method WaitChain(src: nat, dest: nat, ghost path: seq<nat>, ghost n: nat) returns (chain: seq<nat>)
      requires 0 < n < |path| && path[0] == dest && path[n] == src && (forall i | 0 <= i < n :: path[i] != src)
      requires forall i | 0 <= i < n :: path[i] < pcbTable.Length && pcbTable[path[i]].msg != NIL
      requires forall i | 0 <= i < n :: pcbTable[path[i]].sendTo == path[i + 1]
      ensures chain == path[..n + 1]
    {
      var p := dest;
      chain := [dest];
      ghost var i := 0;
      while true
        invariant 0 <= i < n && p == path[i] && chain == path[..i + 1]
        decreases n - i
      {
        assert pcbTable[p].msg != NIL;
        p := pcbTable[p].sendTo;
        i := i + 1;
        assert path[..i + 1] == path[..i] + [path[i]];
        chain := chain + [p];
        if p == src {
          break;
        }
      }
    }

    /** One pass over the table for the runnable process with the most ticks. */
    method SelectPass() returns (greatTicks: int)
      requires Represents(pcbTable[..], k)
      modifies this`pcbPtr
      ensures var b := Best(k.st, k.ticks, |k.st|);
              if b < 0 then greatTicks == 0 && pcbPtr == old(pcbPtr)
              else greatTicks == k.ticks[b] > 0 && pcbPtr == b
    {
      BestIsPick(k.st, k.ticks, |k.st|);
      greatTicks := 0;
      for p := 0 to pcbTable.Length
        invariant var b := Best(k.st, k.ticks, p);
                  if b < 0 then greatTicks == 0 && pcbPtr == old(pcbPtr)
                  else greatTicks == k.ticks[b] > 0 && pcbPtr == b
      {
        FlagsAndTicks(pcbTable[..], k, p);
        if pcbTable[p].flags == {} {
          if pcbTable[p].ticks > greatTicks {
            greatTicks := pcbTable[p].ticks;
            pcbPtr := p;
          }
        }
      }
    }

    method RefillAll()
      requires Represents(pcbTable[..], k)
      modifies this`k, pcbTable
      ensures k == old(k).(ticks := old(k).prio) && Represents(pcbTable[..], k)
    {
      ghost var t := pcbTable[..];
      for p := 0 to pcbTable.Length
        invariant k == old(k)
        invariant forall q | 0 <= q < pcbTable.Length ::
                    pcbTable[q] == if q < p then t[q].(ticks := t[q].priority) else t[q]
      {
        pcbTable[p] := pcbTable[p].(ticks := pcbTable[p].priority);
      }
      TicksRep(t, pcbTable[..], k, k.prio);
      k := k.(ticks := k.prio);
    }

    /** Picks the runnable process with the most ticks, refilling all ticks when no runnable
        process has any. A pass that finds nothing right after a refill repeats forever: Spin. */
    method Schedule() returns (outcome: Outcome)
      requires Valid()
      modifies this, pcbTable
      ensures Valid() && (k, outcome) == Reschedule(old(k))
      ensures outcome == Done ==> Running()
    {
      hide Represents;
      ghost var k0 := k;
      RescheduleSound(k);
      var greatTicks := 0;
      var refilled := false;
      while greatTicks == 0
        invariant Represents(pcbTable[..], k) && ticksCount == k.count && mem[..] == k.mem
        invariant k == if refilled then k0.(ticks := k0.prio) else k0
        invariant refilled ==> Best(k0.st, k0.ticks, |k0.st|) < 0
        invariant greatTicks == 0 ==> pcbPtr == k.cur
        invariant greatTicks != 0 ==> pcbPtr == Best(k.st, k.ticks, |k.st|)
        decreases if refilled then 0 else 1, if greatTicks == 0 then 1 else 0
      {
        greatTicks := SelectPass();
        if greatTicks == 0 {
          if refilled {
            return Spin;
          }
          RefillAll();
          refilled := true;
        }
      }
      TableOnly(pcbTable[..], k, k.(cur := pcbPtr));
      k := k.(cur := pcbPtr);
      return Done;
    }

    /** Gives up the processor; the caller's flags have been set. */
    method Block(p: nat) returns (outcome: Outcome)
      requires Valid() && p < pcbTable.Length && pcbTable[p].flags != {}
      modifies this, pcbTable
      ensures Valid() && (k, outcome) == Reschedule(old(k))
      ensures outcome == Done ==> Running()
    {
      outcome := Schedule();
    }

    /** Wakes p; its flags have been cleared. */
    method Unblock(p: nat)
      requires p < pcbTable.Length && pcbTable[p].flags == {}
    {}

    /** Hands the message in cell m to dest if dest waits for it; otherwise the caller is
        blocked and linked behind dest's other senders. */
    method MsgSend(dest: int, m: nat) returns (outcome: Outcome)
      requires Running() && m < mem.Length
      modifies this, pcbTable, mem
      ensures Valid() && (k, outcome) == Send(old(k), dest, m)
      ensures outcome == Done ==> Running()
    {
      SendSound(k, dest, m);
      var sender := pcbPtr;
      if sender == dest {
        return AssertFailed;
      }
      var verdict := DeadlockCheck(sender, dest);
      if verdict.LeavesTable? {
        return OffTable;
      }
      if verdict.Cycle? {
        return Deadlock;
      }
      var receiver := pcbTable[dest];
      assert StatusRep(receiver, k.st[dest], pcbTable.Length);
      if ReceivingFlag in receiver.flags && (receiver.recvFrom == sender || receiver.recvFrom == AnyCode(pcbTable.Length)) {
        Handover(dest, m);
        return Done;
      }
      outcome := Enqueue(dest, m);
    }

    /** Rendezvous: the receiver is waiting for this sender. */
    method Handover(dest: nat, m: nat)
      requires Running() && dest < pcbTable.Length && m < mem.Length
      requires k.st[dest] != Off && Accepts(k.st[dest], k.cur) && Sound(Send(k, dest, m).0)
      requires dest != k.cur && !Reaches(k.st, dest, k.cur)
      modifies this`k, pcbTable, mem
      ensures Running() && (k, Done) == Send(old(k), dest, m)
    {
      ghost var t := pcbTable[..];
      var sender := pcbPtr;
      var receiver := pcbTable[dest];
      assert StatusRep(receiver, k.st[dest], |t|) && StatusRep(t[sender], k.st[sender], |t|);
      assert receiver.msg != NIL;
      mem[receiver.msg] := mem[m];
      pcbTable[dest] := receiver.(msg := NIL, flags := receiver.flags - {ReceivingFlag},
                                  recvFrom := NoTask(pcbTable.Length));
      Unblock(dest);
      assert pcbTable[dest].flags == {} && pcbTable[dest].msg == NIL;
      assert pcbTable[dest].recvFrom == NoTask(pcbTable.Length) == pcbTable[dest].sendTo;
      assert pcbTable[sender].flags == {} && pcbTable[sender].msg == NIL;
      assert pcbTable[sender].recvFrom == NoTask(pcbTable.Length) == pcbTable[sender].sendTo;
      StatusSet(t, k, dest, pcbTable[dest], Ready);
      assert k.latched[dest := pcbTable[dest].hasInt] == k.latched;
      k := k.(mem := mem[..], st := k.st[dest := Ready]);
    }

    /** No rendezvous: the caller is blocked behind dest's other senders. */
    method Enqueue(dest: nat, m: nat) returns (outcome: Outcome)
      requires Running() && dest < pcbTable.Length && m < mem.Length && k.st[dest] != Off
      requires dest != k.cur && !Reaches(k.st, dest, k.cur) && !Accepts(k.st[dest], k.cur)
      modifies this, pcbTable
      ensures Valid() && (k, outcome) == Send(old(k), dest, m)
      ensures outcome == Done ==> Running()
    {
      var sender := pcbPtr;
      hide Represents, Reaches;
      SetSending(sender, dest, m);
      LinkSender(old(k).st, sender, dest);
      BlockSender(old(k), dest, m);
      SendingFields(sender);
      outcome := Block(sender);
      SendingFields(sender);
    }

    method SetSending(s: nat, dest: nat, m: nat)
      requires Represents(pcbTable[..], k) && s < pcbTable.Length && k.st[s].Ready?
      modifies this`k, pcbTable
      ensures Represents(pcbTable[..], k) && k == old(k).(st := old(k).st[s := Sending(dest, m)])
    {
      ghost var t := pcbTable[..];
      assert StatusRep(t[s], k.st[s], |t|);
      pcbTable[s] := pcbTable[s].(flags := pcbTable[s].flags + {SendingFlag});
      assert pcbTable[s].flags == {SendingFlag};
      pcbTable[s] := pcbTable[s].(sendTo := dest, msg := m);
      StatusSet(t, k, s, pcbTable[s], Sending(dest, m));
      assert k.latched[s := pcbTable[s].hasInt] == k.latched;
      assert pcbTable[..] == t[s := pcbTable[s]];
      k := k.(st := k.st[s := Sending(dest, m)]);
    }

    /** What the original asserts of a sender once it is blocked. */
    lemma SendingFields(s: nat)
      requires Represents(pcbTable[..], k) && s < pcbTable.Length && k.st[s].Sending?
      ensures pcbTable[s].flags == {SendingFlag} && pcbTable[s].msg != NIL
      ensures pcbTable[s].recvFrom == NoTask(pcbTable.Length) && pcbTable[s].sendTo == k.st[s].to
    {
      assert StatusRep(pcbTable[..][s], k.st[s], pcbTable.Length);
    }

    /** Appends s to dest's list of senders. */
    method LinkSender(ghost st: seq<Status>, s: nat, dest: nat)
      requires Represents(pcbTable[..], k) && Linkable(st, k.queue, dest) && s < |st| && !st[s].Sending?
      modifies this`k, pcbTable
      ensures Represents(pcbTable[..], k)
      ensures k == old(k).(queue := old(k).queue[dest := old(k).queue[dest] + [s]])
    {
      ghost var t := pcbTable[..];
      ghost var q := k.queue[dest];
      assert Linked(t, t[dest].qSending, q);
      AppendRep(t, k, st, dest, s);
      if pcbTable[dest].qSending != NIL {
        var p := pcbTable[dest].qSending;
        ghost var i := 0;
        while pcbTable[p].nextSending != NIL
          invariant 0 <= i < |q| && p == q[i]
          invariant pcbTable[..] == t && k == old(k)
          decreases |q| - i
        {
          LinkedNext(t, q, i);
          p := pcbTable[p].nextSending;
          i := i + 1;
        }
        LinkedNext(t, q, i);
        pcbTable[p] := pcbTable[p].(nextSending := s);
      } else {
        pcbTable[dest] := pcbTable[dest].(qSending := s);
      }
      pcbTable[s] := pcbTable[s].(nextSending := NIL);
      assert pcbTable[..] == Append(t, q, dest, s);
      k := k.(queue := k.queue[dest := q + [s]]);
    }

    /** Takes a message for the caller: a latched interrupt, the longest waiting sender, or
        the sender asked for; with none of these the caller is blocked. */
    method MsgReceive(peer: Peer, m: nat) returns (outcome: Outcome)
      requires Running() && m < mem.Length && (peer.From? ==> peer.pid < pcbTable.Length)
      modifies this, pcbTable, mem
      ensures Valid() && (k, outcome) == Receive(old(k), peer, m)
      ensures outcome == Done ==> Running()
    {
      hide Represents, Reaches;
      ReceiveSound(k, peer, m);
      var receiver := pcbPtr;
      if peer == From(receiver) {
        return AssertFailed;
      }
      ReadyFields(receiver);
      if pcbTable[receiver].hasInt && !peer.From? {
        mem[m] := Message(INTERRUPT, HARD_INT, ZERO_BODY);
        SetLatch(receiver, false);
        ReadyFields(receiver);
        assert pcbTable[receiver].flags == {} && pcbTable[receiver].msg == NIL;
        assert pcbTable[receiver].sendTo == NoTask(pcbTable.Length) && !pcbTable[receiver].hasInt;
        TableOnly(pcbTable[..], k, k.(mem := mem[..]));
        k := k.(mem := mem[..]);
        return Done;
      }
      var sender, prev := FindSender(peer);
      if sender != NIL {
        TakeFrom(sender, prev, Waiting(k, peer), m);
        return Done;
      }
      outcome := AwaitMessage(peer, m);
    }

    /** The waiting sender a receive from `peer` takes, and its predecessor in the list. */
    method FindSender(peer: Peer) returns (sender: int, prev: int)
      requires Running() && (peer.From? ==> peer.pid < pcbTable.Length && peer.pid != k.cur)
      ensures var i := Waiting(k, peer);
              var q := k.queue[k.cur];
              if i < 0 then sender == NIL
              else sender == q[i] && prev == if i == 0 then NIL else q[i - 1]
    {
      hide Represents;
      var receiver := pcbPtr;
      ghost var q := k.queue[receiver];
      ListAt(pcbTable[..], k, receiver);
      sender, prev := NIL, NIL;
      match peer
      case Any =>
        if pcbTable[receiver].qSending != NIL {
          sender := pcbTable[receiver].qSending;
          ReadyFields(receiver);
          SendingFields(sender);
          assert pcbTable[receiver].flags == {} && pcbTable[receiver].msg == NIL;
          assert pcbTable[receiver].recvFrom == NoTask(pcbTable.Length) == pcbTable[receiver].sendTo;
          assert pcbTable[sender].flags == {SendingFlag} && pcbTable[sender].msg != NIL;
          assert pcbTable[sender].recvFrom == NoTask(pcbTable.Length) && pcbTable[sender].sendTo == receiver;
        }
      case Interrupt =>
      case From(s) =>
        SendsTo(pcbTable[..], k, s, receiver);
        if SendingFlag in pcbTable[s].flags && pcbTable[s].sendTo == receiver {
          sender := s;
          var p := pcbTable[receiver].qSending;
          assert p != NIL;
          ghost var i := 0;
          while p != NIL
            invariant 0 <= i <= |q| && p == (if i < |q| then q[i] else NIL)
            invariant s !in q[..i] && prev == if i == 0 then NIL else q[i - 1]
            decreases |q| - i
          {
            assert SendingFlag in pcbTable[s].flags;
            if p == s {
              break;
            }
            LinkedNext(pcbTable[..], q, i);
            prev := p;
            p := pcbTable[p].nextSending;
            i := i + 1;
          }
          assert i < |q| by { assert q[..|q|] == q; }
          FirstIndex(q, s, i);
          ReadyFields(receiver);
          SendingFields(s);
          assert pcbTable[receiver].flags == {} && pcbTable[receiver].msg == NIL && pcbTable[receiver].qSending != NIL;
          assert pcbTable[receiver].recvFrom == NoTask(pcbTable.Length) == pcbTable[receiver].sendTo;
          assert pcbTable[s].flags == {SendingFlag} && pcbTable[s].msg != NIL;
          assert pcbTable[s].recvFrom == NoTask(pcbTable.Length) && pcbTable[s].sendTo == receiver;
        }
    }

    /** Copies the message of element i of the caller's queue into cell m and wakes it. */
    method TakeFrom(sender: nat, prev: int, ghost i: nat, m: nat)
      requires Running() && m < mem.Length && i < |k.queue[k.cur]|
      requires sender == k.queue[k.cur][i] && prev == if i == 0 then NIL else k.queue[k.cur][i - 1]
      modifies this`k, pcbTable, mem
      ensures Running()
      ensures k == old(k).(mem := old(k).mem[m := old(k).mem[old(k).st[sender].out]],
                           st := old(k).st[sender := Ready],
                           queue := old(k).queue[old(k).cur := Without(old(k).queue[old(k).cur], i)])
    {
      hide Represents, Reaches;
      var receiver := pcbPtr;
      WakeSender(k, receiver, i);
      UnlinkSender(sender, prev, i);
      SendingFields(sender);
      SenderFields(pcbTable[..], k, sender);
      SentFrom(sender);
      assert pcbTable[sender].msg != NIL;
      mem[m] := mem[pcbTable[sender].msg];
      WakeUp(sender);
      TableOnly(pcbTable[..], k, k.(mem := mem[..]));
      k := k.(mem := mem[..]);
    }

    method UnlinkSender(sender: nat, prev: int, ghost i: nat)
      requires Running() && i < |k.queue[k.cur]| && sender == k.queue[k.cur][i]
      requires prev == if i == 0 then NIL else k.queue[k.cur][i - 1]
      modifies this`k, pcbTable
      ensures Represents(pcbTable[..], k)
      ensures k == old(k).(queue := old(k).queue[old(k).cur := Without(old(k).queue[old(k).cur], i)])
    {
      hide Represents, Reaches;
      var receiver := pcbPtr;
      ghost var t := pcbTable[..];
      ghost var q := k.queue[receiver];
      ListAt(t, k, receiver);
      UnlinkRep(t, k, receiver, i);
      var next := pcbTable[sender].nextSending;
      assert i > 0 ==> q[0] != q[i];
      if sender == pcbTable[receiver].qSending {
        assert prev == NIL;
        pcbTable[receiver] := pcbTable[receiver].(qSending := next);
      } else {
        assert prev != NIL;
        pcbTable[prev] := pcbTable[prev].(nextSending := next);
      }
      pcbTable[sender] := pcbTable[sender].(nextSending := NIL);
      assert pcbTable[..] == Unlink(t, q, receiver, i);
      k := k.(queue := k.queue[receiver := Without(q, i)]);
    }

    method WakeUp(p: nat)
      requires Represents(pcbTable[..], k) && p < pcbTable.Length && k.st[p].Sending?
      modifies this`k, pcbTable
      ensures Represents(pcbTable[..], k) && k == old(k).(st := old(k).st[p := Ready])
    {
      ghost var t := pcbTable[..];
      assert StatusRep(t[p], k.st[p], |t|);
      pcbTable[p] := pcbTable[p].(msg := NIL, sendTo := NoTask(pcbTable.Length),
                                  flags := pcbTable[p].flags - {SendingFlag});
      Unblock(p);
      StatusSet(t, k, p, pcbTable[p], Ready);
      assert pcbTable[..] == t[p := pcbTable[p]];
      assert k.latched[p := pcbTable[p].hasInt] == k.latched;
      k := k.(st := k.st[p := Ready]);
    }

    lemma SentFrom(s: nat)
      requires Represents(pcbTable[..], k) && s < pcbTable.Length && k.st[s].Sending?
      ensures pcbTable[s].msg == k.st[s].out
    {
      assert StatusRep(pcbTable[..][s], k.st[s], pcbTable.Length);
    }

    /** What the original asserts of the running process. */
    lemma ReadyFields(p: nat)
      requires Represents(pcbTable[..], k) && p < pcbTable.Length && k.st[p].Ready?
      ensures pcbTable[p].flags == {} && pcbTable[p].msg == NIL
      ensures pcbTable[p].recvFrom == NoTask(pcbTable.Length) == pcbTable[p].sendTo
      ensures pcbTable[p].hasInt == k.latched[p]
    {
      assert StatusRep(pcbTable[..][p], k.st[p], pcbTable.Length);
    }

    /** What the original asserts of a receiver once it is blocked, but for its latch. */
    lemma ReceivingFields(p: nat)
      requires Represents(pcbTable[..], k) && p < pcbTable.Length && k.st[p].Receiving?
      requires k.st[p].peer.From? ==> k.st[p].peer.pid < pcbTable.Length
      ensures pcbTable[p].flags == {ReceivingFlag} && pcbTable[p].msg != NIL
      ensures pcbTable[p].sendTo == NoTask(pcbTable.Length) != pcbTable[p].recvFrom
      ensures pcbTable[p].hasInt == k.latched[p]
    {
      assert StatusRep(pcbTable[..][p], k.st[p], pcbTable.Length);
    }

    method SetLatch(p: nat, on: bool)
      requires Represents(pcbTable[..], k) && p < pcbTable.Length
      modifies this`k, pcbTable
      ensures Represents(pcbTable[..], k) && k == old(k).(latched := old(k).latched[p := on])
    {
      ghost var t := pcbTable[..];
      assert StatusRep(t[p], k.st[p], |t|);
      pcbTable[p] := pcbTable[p].(hasInt := on);
      StatusSet(t, k, p, pcbTable[p], k.st[p]);
      assert pcbTable[..] == t[p := pcbTable[p]];
      assert k.st[p := k.st[p]] == k.st;
      k := k.(latched := k.latched[p := on]);
    }

    /** Blocks the caller until a message arrives. The last assertion of the original fails
        exactly when the caller has a latched interrupt it did not ask for. */
    method AwaitMessage(peer: Peer, m: nat) returns (outcome: Outcome)
      requires Running() && m < mem.Length && (peer.From? ==> peer.pid < pcbTable.Length)
      requires peer != From(k.cur) && !(k.latched[k.cur] && !peer.From?) && Waiting(k, peer) < 0
      modifies this, pcbTable
      ensures Valid() && (k, outcome) == Receive(old(k), peer, m)
      ensures outcome == Done ==> Running()
    {
      hide Represents, Reaches;
      ReceiveSound(k, peer, m);
      BlockReceiver(k, peer, m);
      var receiver := pcbPtr;
      SetReceiving(receiver, peer, m);
      ReceivingFields(receiver);
      outcome := Block(receiver);
      ReceivingFields(receiver);
      assert pcbTable[receiver].flags == {ReceivingFlag} && pcbTable[receiver].msg != NIL;
      assert pcbTable[receiver].recvFrom != NoTask(pcbTable.Length) == pcbTable[receiver].sendTo;
      if outcome == Done && pcbTable[receiver].hasInt {
        return AssertFailed;
      }
    }

    method SetReceiving(p: nat, peer: Peer, m: nat)
      requires Represents(pcbTable[..], k) && p < pcbTable.Length && k.st[p].Ready?
      requires peer.From? ==> peer.pid < pcbTable.Length
      modifies this`k, pcbTable
      ensures Represents(pcbTable[..], k) && k == old(k).(st := old(k).st[p := Receiving(peer, m)])
    {
      ghost var t := pcbTable[..];
      assert StatusRep(t[p], k.st[p], |t|);
      pcbTable[p] := pcbTable[p].(flags := pcbTable[p].flags + {ReceivingFlag}, msg := m,
                                  recvFrom := PeerCode(peer, pcbTable.Length));
      StatusSet(t, k, p, pcbTable[p], Receiving(peer, m));
      assert pcbTable[..] == t[p := pcbTable[p]];
      assert k.latched[p := pcbTable[p].hasInt] == k.latched;
      k := k.(st := k.st[p := Receiving(peer, m)]);
    }

    /** Reports a device interrupt to process p. */
    method InformInt(p: nat)
      requires Valid() && p < pcbTable.Length
      modifies this`k, pcbTable, mem
      ensures Valid() && k == Inform(old(k), p)
      ensures old(Running()) ==> Running()
    {
      hide Represents, Reaches;
      InformSound(k, p);
      WaitsForInterrupt(p);
      if ReceivingFlag in pcbTable[p].flags
         && (pcbTable[p].recvFrom == INTERRUPT || pcbTable[p].recvFrom == AnyCode(pcbTable.Length)) {
        var cell := pcbTable[p].msg;
        mem[cell] := mem[cell].(source := INTERRUPT, kind := HARD_INT);
        Released(p);
        SetLatch(p, false);
        ReadyFields(p);
        assert pcbTable[p].flags == {};
        Unblock(p);
        assert pcbTable[p].flags == {} && pcbTable[p].msg == NIL;
        assert pcbTable[p].recvFrom == NoTask(pcbTable.Length) == pcbTable[p].sendTo;
        TableOnly(pcbTable[..], k, k.(mem := mem[..]));
        k := k.(mem := mem[..]);
      } else {
        SetLatch(p, true);
      }
    }

    lemma WaitsForInterrupt(p: nat)
      requires Valid() && p < pcbTable.Length
      ensures k.st[p].Receiving? && !k.st[p].peer.From? <==>
                ReceivingFlag in pcbTable[p].flags
                && (pcbTable[p].recvFrom == INTERRUPT || pcbTable[p].recvFrom == AnyCode(pcbTable.Length))
      ensures k.st[p].Receiving? ==> pcbTable[p].msg == k.st[p].into
    {
      assert StatusRep(pcbTable[..][p], k.st[p], pcbTable.Length);
    }

    method Released(p: nat)
      requires Represents(pcbTable[..], k) && p < pcbTable.Length && k.st[p].Receiving?
      modifies this`k, pcbTable
      ensures Represents(pcbTable[..], k) && k == old(k).(st := old(k).st[p := Ready])
    {
      ghost var t := pcbTable[..];
      assert StatusRep(t[p], k.st[p], |t|);
      pcbTable[p] := pcbTable[p].(msg := NIL, flags := pcbTable[p].flags - {ReceivingFlag},
                                  recvFrom := NoTask(pcbTable.Length));
      StatusSet(t, k, p, pcbTable[p], Ready);
      assert pcbTable[..] == t[p := pcbTable[p]];
      assert k.latched[p := pcbTable[p].hasInt] == k.latched;
      k := k.(st := k.st[p := Ready]);
    }

    /** The clock interrupt; `nested` when it arrives while the kernel is already active. */
    method ClockHandler(keyPressed: bool, nested: bool) returns (outcome: Outcome)
      requires Running()
      modifies this, pcbTable, mem
      ensures Running() && (k, outcome) == Tick(old(k), keyPressed, nested)
    {
      hide Represents, Reaches;
      TickSound(k, keyPressed, nested);
      ChargeTick();
      if keyPressed {
        InformInt(TASK_TTY);
      }
      if nested {
        return Done;
      }
      TicksAt(pcbPtr);
      if pcbTable[pcbPtr].ticks > 0 {
        return Done;
      }
      outcome := Schedule();
    }

    lemma TicksAt(p: nat)
      requires Represents(pcbTable[..], k) && p < pcbTable.Length
      ensures pcbTable[p].ticks == k.ticks[p]
    {
      FlagsAndTicks(pcbTable[..], k, p);
    }

    method ChargeTick()
      requires Running()
      modifies this, pcbTable
      ensures Running() && k == Charge(old(k))
    {
      hide Represents, Reaches;
      ChargeInv(k);
      ghost var t := pcbTable[..];
      TicksAt(pcbPtr);
      ticksCount := ticksCount + 1;
      pcbTable[pcbPtr] := pcbTable[pcbPtr].(ticks := pcbTable[pcbPtr].ticks - 1);
      ghost var ticks := k.ticks[k.cur := k.ticks[k.cur] - 1];
      forall p | 0 <= p < |t| ensures t[p].ticks == k.ticks[p] {
        FlagsAndTicks(t, k, p);
      }
      TicksRep(t, pcbTable[..], k, ticks);
      TableOnly(pcbTable[..], k.(ticks := ticks), Charge(k));
      k := Charge(k);
    }

    /** The system call: checks the other party's process code, stamps the caller on the
        message, and sends or receives. SEND with one of the two codes that are not process
        numbers passes the check, and reads outside of the table. */
    method SysSendrec(kind: int, other: int, m: nat) returns (outcome: Outcome)
      requires Running() && m < mem.Length
      modifies this, pcbTable, mem
      ensures Valid() && (outcome == Done ==> Running())
      ensures !(0 <= other < pcbTable.Length) && other != AnyCode(pcbTable.Length) && other != INTERRUPT ==>
                outcome == AssertFailed && k == old(k)
      ensures kind == SEND && (0 <= other < pcbTable.Length || other == AnyCode(pcbTable.Length) || other == INTERRUPT) ==>
                (k, outcome) == Step(old(k), OpSend(other, m))
      ensures kind == RECEIVE ==> forall peer: Peer | other == PeerCode(peer, pcbTable.Length) && Legal(old(k), OpReceive(peer, m)) ::
                (k, outcome) == Step(old(k), OpReceive(peer, m))
      ensures kind != SEND && kind != RECEIVE ==> outcome == AssertFailed
    {
      hide Represents, Reaches;
      var n := pcbTable.Length;
      if !(0 <= other < n) && other != AnyCode(n) && other != INTERRUPT {
        return AssertFailed;
      }
      StampInv(k, m);
      mem[m] := mem[m].(source := pcbPtr);
      TableOnly(pcbTable[..], k, Stamp(k, m));
      k := Stamp(k, m);
      if mem[m].source == other {
        return AssertFailed;
      }
      if kind == SEND {
        outcome := MsgSend(other, m);
      } else if kind == RECEIVE {
        var peer := if other == AnyCode(n) then Any else if other == INTERRUPT then Interrupt else From(other);
        outcome := MsgReceive(peer, m);
      } else {
        return AssertFailed;
      }
    }

    /** The process table at boot; every process has the same positive priority. */
    constructor (n: nat, priority: int, memory: array<Message>)
      requires n >= 2 && priority > 0
      ensures Running() && Initial(k) && pcbTable.Length == n && mem == memory
      ensures fresh(pcbTable)
    {
      var table := new Pcb[n];
      for i := 0 to n
        invariant forall j | 0 <= j < i ::
                    table[j] == Pcb(priority, priority, {}, NIL, NoTask(n), NoTask(n), false, NIL, NIL)
      {
        table[i] := Pcb(priority, priority, {}, NIL, NoTask(n), NoTask(n), false, NIL, NIL);
      }
      table[n - 1] := table[n - 1].(flags := {SendingFlag, ReceivingFlag, OtherFlag});
      pcbTable := table;
      mem := memory;
      pcbPtr := 0;
      ticksCount := 0;
      k := Kernel(seq(n, p => if p == n - 1 then Off else Ready), seq(n, _ => false), seq(n, _ => []),
                  memory[..], seq(n, _ => priority), seq(n, _ => priority), 0, 0);
      new;
      assert Initial(k);
      InitialInv(k);
    }
  }
}
