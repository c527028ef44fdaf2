/** What the deadlock test of SEND does not see: processes that wait for one another in
    RECEIVE stay blocked for good. */
module KernelDeadlock {
  import opened Options
  import opened KernelState
  import opened KernelInvariant
  import opened KernelSteps

  /** Process p can only be woken by a member of d, or is switched off. */
  predicate WaitsFor(s: Status, d: set<nat>) {
    || s.Off?
    || (s.Sending? && s.to in d)
    || (s.Receiving? && s.peer.From? && s.peer.pid in d)
  }

  /** Every member of d waits for a member of d. */
  ghost predicate Dead(st: seq<Status>, d: set<nat>) {
    forall p | p in d :: p < |st| && WaitsFor(st[p], d)
  }

  ghost predicate Unmoved(st: seq<Status>, st': seq<Status>, d: set<nat>) {
    |st'| == |st| && forall p | p in d && p < |st| :: st'[p] == st[p]
  }

  lemma SendUnmoved(k: Kernel, dest: int, m: nat, d: set<nat>)
    requires Inv(k) && m < |k.mem| && Dead(k.st, d)
    ensures Unmoved(k.st, Send(k, dest, m).0.st, d)
  {
    hide Reaches, Best;
  }

  lemma ReceiveUnmoved(k: Kernel, peer: Peer, m: nat, d: set<nat>)
    requires Inv(k) && m < |k.mem| && Dead(k.st, d)
    ensures Unmoved(k.st, Receive(k, peer, m).0.st, d)
  {
    hide IndexOf, Best;
    var i := Waiting(k, peer);
    if i >= 0 {
      var sender := k.queue[k.cur][i];
      assert k.st[sender].Sending? && k.st[sender].to == k.cur;
    }
  }

  /** No step changes a member of d. */
  lemma StepUnmoved(k: Kernel, op: Op, d: set<nat>)
    requires Inv(k) && Proceeds(k, op) && Dead(k.st, d)
    ensures Unmoved(k.st, Step(k, op).0.st, d)
  {
    hide Send, Receive, Best;
    match op {
      case OpSend(dest, m) =>
        StampInv(k, m);
        SendUnmoved(Stamp(k, m), dest, m, d);
      case OpReceive(peer, m) =>
        StampInv(k, m);
        ReceiveUnmoved(Stamp(k, m), peer, m, d);
      case OpInform(p) =>
      case OpTick(key, nested) =>
      case OpCompose(m, msg) =>
    }
  }

  /** Processes that wait for one another are blocked in every later state. */
  lemma {:induction false} DeadForever(k: Kernel, ops: seq<Op>, d: set<nat>)
    requires Inv(k) && Dead(k.st, d) && Exec(k, ops).Some?
    ensures Unmoved(k.st, Exec(k, ops).value.st, d) && Inv(Exec(k, ops).value)
  {
    hide Inv, Step, Dead;
    if ops != [] {
      var n := |ops| - 1;
      var mid := Exec(k, ops[..n]).value;
      DeadForever(k, ops[..n], d);
      SameDead(k.st, mid.st, d);
      StepUnmoved(mid, ops[n], d);
      StepInv(mid, ops[n]);
    }
  }

  lemma SameDead(st: seq<Status>, st': seq<Status>, d: set<nat>)
    requires Dead(st, d) && Unmoved(st, st', d)
    ensures Dead(st', d)
  {}

  // ---------------------------------------------------------------- sends alone do no harm

  /** The members of d wait for one another, and not all of them are switched off. */
  ghost predicate Stuck(st: seq<Status>, d: set<nat>) {
    Dead(st, d) && exists p | p in d :: !st[p].Off?
  }

  ghost predicate NoDeadlock(st: seq<Status>) {
    forall d: set<nat> :: !Stuck(st, d)
  }

  /** A chain of senders from a member of d stays in d. */
  lemma {:induction false} ChainStays(k: Kernel, d: set<nat>, path: seq<nat>, i: nat)
    requires Sound(k) && Dead(k.st, d) && IsChain(k.st, path) && i < |path| && path[0] in d && k.st[path[0]] != Off
    ensures path[i] in d && k.st[path[i]] != Off
  {
    if i > 0 {
      ChainStays(k, d, path, i - 1);
      assert Edge(k.st, path, i - 1);
    }
  }

  /** Among processes that wait for one another is one that waits in a receive. */
  lemma DeadHasReceiver(k: Kernel, d: set<nat>, p: nat)
    requires Inv(k) && Dead(k.st, d) && p in d && k.st[p] != Off
    ensures exists r :: r in d && k.st[r].Receiving? && k.st[r].peer.From? && k.st[r].peer.pid in d
  {
    assert Drains(k.st, p);
    var path :| DrainsBy(k.st, p, path);
    ChainStays(k, d, path, |path| - 1);
    assert WaitsFor(k.st[path[|path| - 1]], d);
  }

  /** Nobody waits for one certain process in a receive. */
  ghost predicate NoneFrom(st: seq<Status>) {
    forall p | 0 <= p < |st| && st[p].Receiving? :: !st[p].peer.From?
  }

  lemma StepNoneFrom(k: Kernel, op: Op)
    requires Inv(k) && Proceeds(k, op) && NoneFrom(k.st) && !(op.OpReceive? && op.peer.From?)
    ensures NoneFrom(Step(k, op).0.st)
  {
    hide Best, Reaches, IndexOf;
  }

  /** In a run in which nobody asks to receive from one certain process, the deadlock test is
      enough: nobody ever waits for good. */
  lemma {:induction false} SendsAloneSafe(k: Kernel, ops: seq<Op>)
    requires Initial(k) && Exec(k, ops).Some?
    requires forall i | 0 <= i < |ops| :: !(ops[i].OpReceive? && ops[i].peer.From?)
    ensures NoneFrom(Exec(k, ops).value.st) && NoDeadlock(Exec(k, ops).value.st)
  {
    ReachableInv(k, ops);
    if ops != [] {
      var n := |ops| - 1;
      SendsAloneSafe(k, ops[..n]);
      ReachableInv(k, ops[..n]);
      StepNoneFrom(Exec(k, ops[..n]).value, ops[n]);
    }
    hide Inv, Step, Initial;
    var end := Exec(k, ops).value;
    forall d: set<nat> | Stuck(end.st, d) ensures false {
      var p :| p in d && !end.st[p].Off?;
      DeadHasReceiver(end, d, p);
    }
  }

  // ---------------------------------------------------------------- which steps close a circle

  /** A process with status s can only be woken by q. */
  predicate On(s: Status, q: nat) {
    (s.Sending? && s.to == q) || (s.Receiving? && s.peer == From(q))
  }

  /** Every process on the path can only be woken by the next one. */
  ghost predicate WaitPath(st: seq<Status>, path: seq<nat>) {
    && path != [] && (forall i | 0 <= i < |path| :: path[i] < |st|)
    && forall i | 0 <= i < |path| - 1 :: On(st[path[i]], path[i + 1])
  }

  /** Process a waits, directly or through others, for b. */
  ghost predicate WaitsThrough(st: seq<Status>, a: nat, b: nat) {
    exists path :: WaitPath(st, path) && |path| >= 2 && path[0] == a && path[|path| - 1] == b
  }

  /** The step blocks the caller until q wakes it. */
  predicate BlocksOn(k: Kernel, op: Op, q: nat)
    requires Shape(k) && q < |k.st|
  {
    || (op.OpSend? && op.dest == q && !Accepts(k.st[q], k.cur))
    || (op.OpReceive? && op.peer == From(q) && q !in k.queue[k.cur])
  }

  /** The step makes the caller wait for a process that waits for the caller, directly or through
      others, or that is switched off. */
  ghost predicate ClosesCircle(k: Kernel, op: Op)
    requires Shape(k)
  {
    exists q | 0 <= q < |k.st| :: BlocksOn(k, op, q) && (k.st[q].Off? || WaitsThrough(k.st, q, k.cur))
  }

  lemma WaitsThroughStep(st: seq<Status>, a: nat, b: nat, c: nat)
    requires a < |st| && b < |st| && On(st[a], b) && (b == c || WaitsThrough(st, b, c))
    ensures WaitsThrough(st, a, c)
  {
    if b == c {
      assert WaitPath(st, [a, c]);
    } else {
      var path :| WaitPath(st, path) && |path| >= 2 && path[0] == b && path[|path| - 1] == c;
      assert WaitPath(st, [a] + path);
    }
  }

  /** Process c, which was runnable, has been blocked on q. */
  lemma BlockCloses(st: seq<Status>, c: nat, q: nat, s: Status)
    requires c < |st| && q < |st| && st[c].Ready? && On(s, q) && (st[q].Off? || WaitsThrough(st, q, c))
    ensures !NoDeadlock(st[c := s])
  {
    var st' := st[c := s];
    if st[q].Off? {
      assert Dead(st', {c, q}) && Stuck(st', {c, q});
    } else {
      var path :| WaitPath(st, path) && |path| >= 2 && path[0] == q && path[|path| - 1] == c;
      var d := set x | x in path;
      forall p | p in d ensures p < |st'| && WaitsFor(st'[p], d) {
        var i :| 0 <= i < |path| && path[i] == p;
        assert i + 1 < |path| ==> path[i + 1] in d;
        assert path[0] in d;
      }
      assert c in d && Stuck(st', d);
    }
  }

  lemma BlockOnlyCloses(st: seq<Status>, c: nat, q: nat, s: Status)
    requires c < |st| && q < |st| && st[c].Ready? && On(s, q) && NoDeadlock(st)
    requires !st[q].Off? && !WaitsThrough(st, q, c) && q != c && (s.Sending? || s.Receiving?)
    ensures NoDeadlock(st[c := s])
  {
    var st' := st[c := s];
    forall d: set<nat> ensures !Stuck(st', d) {
      if !Stuck(st', d) {
      } else if c !in d {
        assert Stuck(st, d);
      } else {
        assert q in d;
        var e := set x | x in d && x != c && !WaitsThrough(st, x, c);
        forall x | x in e ensures x < |st| && WaitsFor(st[x], e) {
          assert st'[x] == st[x] && WaitsFor(st'[x], d);
          if !st[x].Off? {
            var y := if st[x].Sending? then st[x].to else st[x].peer.pid;
            assert y in d && On(st[x], y);
            if y == c || WaitsThrough(st, y, c) {
              WaitsThroughStep(st, x, y, c);
            }
          }
        }
        assert Dead(st, e) && q in e;
        assert Stuck(st, e);
      }
    }
  }

  /** Every process is as it was, or runnable, or waits for anybody or for an interrupt. */
  ghost predicate OnlyFreed(st: seq<Status>, st': seq<Status>) {
    && |st'| == |st|
    && forall p | 0 <= p < |st| ::
         st'[p] == st[p] || st'[p].Ready? || (st'[p].Receiving? && !st'[p].peer.From?)
  }

  lemma FreedKeeps(st: seq<Status>, st': seq<Status>)
    requires NoDeadlock(st) && OnlyFreed(st, st')
    ensures NoDeadlock(st')
  {
    forall d: set<nat> ensures !Stuck(st', d) {
      if Stuck(st', d) {
        forall x | x in d ensures x < |st| && WaitsFor(st[x], d) {
          assert WaitsFor(st'[x], d);
        }
        assert Stuck(st, d);
      }
    }
  }

  /** What a step does to the statuses: the caller is blocked on some q, or all that happens is
      that processes are freed. */
  lemma StepStatuses(k: Kernel, op: Op)
    requires Inv(k) && Proceeds(k, op)
    ensures var st' := Step(k, op).0.st;
            if exists q | 0 <= q < |k.st| :: BlocksOn(k, op, q)
            then exists q, s | 0 <= q < |k.st| :: BlocksOn(k, op, q) && q != k.cur && On(s, q) && st' == k.st[k.cur := s]
            else OnlyFreed(k.st, st')
  {
    hide Best, Reaches, IndexOf;
    match op {
      case OpSend(dest, m) =>
        StampInv(k, m);
        if !Accepts(k.st[dest], k.cur) {
          assert BlocksOn(k, op, dest) && On(Sending(dest, m), dest);
        }
      case OpReceive(peer, m) =>
        StampInv(k, m);
        if peer.From? && peer.pid !in k.queue[k.cur] {
          assert BlocksOn(k, op, peer.pid) && On(Receiving(peer, m), peer.pid);
        }
      case OpInform(p) =>
      case OpTick(key, nested) =>
      case OpCompose(m, msg) =>
    }
  }

  lemma OneBlocker(k: Kernel, op: Op, q: nat, q': nat)
    requires Shape(k) && q < |k.st| && q' < |k.st| && BlocksOn(k, op, q) && BlocksOn(k, op, q')
    ensures q == q'
  {}

  /** From a state in which nobody waits for good, a step leads to one in which somebody does, if
      and only if it closes a circle. */
  lemma StepDeadlocks(k: Kernel, op: Op)
    requires Inv(k) && Proceeds(k, op) && NoDeadlock(k.st)
    ensures !NoDeadlock(Step(k, op).0.st) <==> ClosesCircle(k, op)
  {
    StepStatuses(k, op);
    hide Step, NoDeadlock, WaitsThrough, Accepts;
    var st' := Step(k, op).0.st;
    if exists q | 0 <= q < |k.st| :: BlocksOn(k, op, q) {
      var q, s :| 0 <= q < |k.st| && BlocksOn(k, op, q) && q != k.cur && On(s, q) && st' == k.st[k.cur := s];
      if k.st[q].Off? || WaitsThrough(k.st, q, k.cur) {
        BlockCloses(k.st, k.cur, q, s);
      } else {
        BlockOnlyCloses(k.st, k.cur, q, s);
        forall r | 0 <= r < |k.st| && BlocksOn(k, op, r) ensures r == q {
          OneBlocker(k, op, q, r);
        }
      }
    } else {
      FreedKeeps(k.st, st');
    }
  }

  lemma InitialNoDeadlock(k: Kernel)
    requires Initial(k)
    ensures NoDeadlock(k.st)
  {}

  /** Once somebody waits for good, somebody always does. */
  lemma StaysDeadlocked(k: Kernel, op: Op)
    requires Inv(k) && Proceeds(k, op) && !NoDeadlock(k.st)
    ensures !NoDeadlock(Step(k, op).0.st)
  {
    hide Inv, Step, WaitsFor;
    var d: set<nat> :| Stuck(k.st, d);
    StepUnmoved(k, op, d);
    SameDead(k.st, Step(k, op).0.st, d);
    assert Stuck(Step(k, op).0.st, d);
  }

  /** Some step of the run closes a circle. */
  ghost predicate CircleIn(k: Kernel, ops: seq<Op>)
    requires Exec(k, ops).Some?
  {
    ops != [] &&
    var n := |ops| - 1;
    CircleIn(k, ops[..n]) || (Shape(Exec(k, ops[..n]).value) && ClosesCircle(Exec(k, ops[..n]).value, ops[n]))
  }

  /** A run from boot leads to processes that wait for good, if and only if one of its steps
      closes a circle. */
  lemma {:induction false} RunDeadlocks(k: Kernel, ops: seq<Op>)
    requires Initial(k) && Exec(k, ops).Some?
    ensures !NoDeadlock(Exec(k, ops).value.st) <==> CircleIn(k, ops)
  {
    hide Initial, Inv, Step, NoDeadlock, ClosesCircle;
    if ops == [] {
      InitialNoDeadlock(k);
    } else {
      var n := |ops| - 1;
      var mid := Exec(k, ops[..n]).value;
      RunDeadlocks(k, ops[..n]);
      ReachableInv(k, ops[..n]);
      if NoDeadlock(mid.st) {
        StepDeadlocks(mid, ops[n]);
      } else {
        StaysDeadlocked(mid, ops[n]);
      }
    }
  }

  // ---------------------------------------------------------------- such a state is reached

  /** With equal times the scheduler takes the first runnable process. */
  lemma {:induction false} FirstReady(st: seq<Status>, time: seq<int>, n: nat, x: nat)
    requires x < n <= |st| == |time| && st[x].Ready? && forall i | 0 <= i < x :: !st[i].Ready?
    requires time[x] > 0 && forall i | 0 <= i < |time| :: time[i] == time[x]
    ensures Best(st, time, n) == x
  {
    if n == x + 1 {
      NoneReady(st, time, x);
    } else {
      FirstReady(st, time, n - 1, x);
    }
  }

  lemma {:induction false} NoneReady(st: seq<Status>, time: seq<int>, n: nat)
    requires n <= |st| == |time| && forall i | 0 <= i < n :: !st[i].Ready?
    ensures Best(st, time, n) == -1
  {
    if n > 0 {
      NoneReady(st, time, n - 1);
    }
  }

  /** The current process waits for another one that has not sent anything, and the next
      runnable process becomes current. */
  lemma WaitForSilent(k: Kernel, s: nat, m: nat, x: nat)
    requires Shape(k) && m < |k.mem| && s != k.cur && !k.latched[k.cur] && k.queue[k.cur] == []
    requires x < |k.st| && x != k.cur && k.st[x].Ready? && (forall i | 0 <= i < x && i != k.cur :: !k.st[i].Ready?)
    requires k.ticks[x] > 0 && forall i | 0 <= i < |k.st| :: k.ticks[i] == k.ticks[x]
    ensures Receive(k, From(s), m) == (k.(st := k.st[k.cur := Receiving(From(s), m)], cur := x), Done)
  {
    FirstReady(k.st[k.cur := Receiving(From(s), m)], k.ticks, |k.st|, x);
  }

  /** No interrupt is latched, and all have the same time left. */
  ghost predicate Quiet(k: Kernel) {
    && Inv(k) && |k.st| >= 4 && |k.mem| >= 3
    && (forall p | 0 <= p < |k.st| :: !k.latched[p] && k.ticks[p] == k.ticks[0] > 0)
  }

  lemma InitialQuiet(k: Kernel)
    requires Initial(k) && |k.st| >= 4 && |k.mem| >= 3 && forall p | 0 <= p < |k.prio| :: k.prio[p] == k.prio[0]
    ensures Quiet(k) && k.cur == 0 && k.st[0].Ready? && k.st[1].Ready? && k.st[2].Ready?
    ensures forall p | 0 <= p < |k.st| :: k.queue[p] == []
  {
    InitialInv(k);
    hide Inv;
  }

  lemma SilentStep(k: Kernel, s: nat, m: nat, x: nat)
    requires Quiet(k) && m < |k.mem| && s < |k.st| && s != k.cur && k.queue[k.cur] == []
    requires x < |k.st| && x != k.cur && k.st[x].Ready? && (forall i | 0 <= i < x && i != k.cur :: !k.st[i].Ready?)
    ensures Proceeds(k, OpReceive(From(s), m)) && Quiet(Step(k, OpReceive(From(s), m)).0)
    ensures Step(k, OpReceive(From(s), m)).0.st == k.st[k.cur := Receiving(From(s), m)]
    ensures Step(k, OpReceive(From(s), m)).0.cur == x && |Step(k, OpReceive(From(s), m)).0.mem| == |k.mem|
    ensures Step(k, OpReceive(From(s), m)).0.queue == k.queue
  {
    StepInv(k, OpReceive(From(s), m));
    StampInv(k, m);
    WaitForSilent(Stamp(k, m), s, m, x);
    hide Receive, Sound;
  }

  lemma ExecTwo(k: Kernel, a: Op, b: Op)
    requires Proceeds(k, a) && Proceeds(Step(k, a).0, b)
    ensures Exec(k, [a, b]) == Some(Step(Step(k, a).0, b).0)
  {
    hide Step;
    assert [a][..0] == [] && Exec(k, []) == Some(k);
    assert Exec(k, [a]) == Some(Step(k, a).0);
    assert [a, b][..1] == [a];
  }

  lemma ReachesSends(st: seq<Status>, a: nat, b: nat)
    requires Reaches(st, a, b)
    ensures a < |st| && st[a].Sending?
  {
    var path :| IsChain(st, path) && |path| >= 2 && path[0] == a && path[|path| - 1] == b;
    assert Edge(st, path, 0);
  }

  /** The current process sends to one that neither listens to it nor sends. */
  lemma SendBlocks(k: Kernel, dest: nat, m: nat, x: nat)
    requires Quiet(k) && m < |k.mem| && dest < |k.st| && dest != k.cur && k.st[dest] != Off
    requires !k.st[dest].Sending? && !Accepts(k.st[dest], k.cur)
    requires x < |k.st| && x != k.cur && k.st[x].Ready? && (forall i | 0 <= i < x && i != k.cur :: !k.st[i].Ready?)
    ensures Proceeds(k, OpSend(dest, m)) && Quiet(Step(k, OpSend(dest, m)).0)
    ensures Step(k, OpSend(dest, m)).0.st == k.st[k.cur := Sending(dest, m)]
    ensures Step(k, OpSend(dest, m)).0.cur == x && |Step(k, OpSend(dest, m)).0.mem| == |k.mem|
  {
    StepInv(k, OpSend(dest, m));
    if Reaches(k.st, dest, k.cur) {
      ReachesSends(k.st, dest, k.cur);
    }
    FirstReady(k.st[k.cur := Sending(dest, m)], k.ticks, |k.st|, x);
    hide Sound, Reaches;
  }

  /** After boot two processes each ask for a message from the other. Both requests end
      normally, the deadlock test is never made, and the two are blocked for good. */
  lemma DeadlockUnseen(k: Kernel)
    requires Initial(k) && |k.st| >= 4 && |k.mem| >= 3 && forall p | 0 <= p < |k.prio| :: k.prio[p] == k.prio[0]
    ensures var end := Exec(k, [OpReceive(From(1), 0), OpReceive(From(0), 1)]);
            end.Some? && Inv(end.value) && Dead(end.value.st, {0, 1}) && end.value.st[0].Receiving? && end.value.st[1].Receiving?
  {
    InitialQuiet(k);
    hide Initial, Inv, Step, Exec, Dead, Quiet, Stamp;
    SilentStep(k, 1, 0, 1);
    var k1 := Step(k, OpReceive(From(1), 0)).0;
    SilentStep(k1, 0, 1, 2);
    var k2 := Step(k1, OpReceive(From(0), 1)).0;
    ExecTwo(k, OpReceive(From(1), 0), OpReceive(From(0), 1));
    QuietInv(k2);
    BothWait(k2.st);
  }

  lemma QuietInv(k: Kernel)
    requires Quiet(k)
    ensures Inv(k) && Shape(k)
  {}

  lemma BothWait(st: seq<Status>)
    requires |st| >= 2 && st[0] == Receiving(From(1), 0) && st[1] == Receiving(From(0), 1)
    ensures Dead(st, {0, 1})
  {}

  lemma ExecThree(k: Kernel, a: Op, b: Op, c: Op)
    requires Proceeds(k, a) && Proceeds(Step(k, a).0, b) && Proceeds(Step(Step(k, a).0, b).0, c)
    ensures Exec(k, [a, b, c]) == Some(Step(Step(Step(k, a).0, b).0, c).0)
  {
    hide Step;
    ExecTwo(k, a, b);
    assert [a, b, c][..2] == [a, b];
  }

  /** A send can close the circle, too, unseen because the circle contains a receive: 0 waits for
      a message from 1, which sends to 2, which sends to 0. */
  lemma SendClosesUnseen(k: Kernel)
    requires Initial(k) && |k.st| >= 5 && |k.mem| >= 3 && forall p | 0 <= p < |k.prio| :: k.prio[p] == k.prio[0]
    ensures var end := Exec(k, [OpReceive(From(1), 0), OpSend(2, 1), OpSend(0, 2)]);
            end.Some? && Inv(end.value) && Dead(end.value.st, {0, 1, 2})
            && end.value.st[0].Receiving? && end.value.st[1].Sending? && end.value.st[2].Sending?
  {
    InitialQuiet(k);
    assert k.st[3].Ready?;
    hide Initial, Inv, Step, Exec, Dead, Quiet, Stamp;
    SilentStep(k, 1, 0, 1);
    var k1 := Step(k, OpReceive(From(1), 0)).0;
    SendBlocks(k1, 2, 1, 2);
    var k2 := Step(k1, OpSend(2, 1)).0;
    SendBlocks(k2, 0, 2, 3);
    var k3 := Step(k2, OpSend(0, 2)).0;
    ExecThree(k, OpReceive(From(1), 0), OpSend(2, 1), OpSend(0, 2));
    QuietInv(k3);
    ThreeWait(k3.st);
  }

  lemma ThreeWait(st: seq<Status>)
    requires |st| >= 3 && st[0] == Receiving(From(1), 0) && st[1] == Sending(2, 1) && st[2] == Sending(0, 2)
    ensures Dead(st, {0, 1, 2})
  {}
}
