/** What holds in every reachable state of the kernel: exact sending queues, an acyclic
    wait-for graph, no missed rendezvous or interrupt, a runnable current process. */
module KernelInvariant {
  import opened KernelState

  /** Whoever is in r's queue is blocked sending to r. */
  ghost predicate QueuedAreSenders(st: seq<Status>, queue: seq<seq<nat>>)
    requires |queue| == |st|
  {
    forall r, i {:trigger queue[r][i]} | 0 <= r < |st| && 0 <= i < |queue[r]| ::
      queue[r][i] < |st| && st[queue[r][i]].Sending? && st[queue[r][i]].to == r
  }

  /** p stands in the queue of the receiver it is blocked sending to. */
  predicate Waits(st: seq<Status>, queue: seq<seq<nat>>, p: nat)
    requires |queue| == |st| && p < |st| && st[p].Sending?
  {
    st[p].to < |st| && p in queue[st[p].to]
  }

  /** Whoever is blocked sending to r is in r's queue. */
  ghost predicate SendersAreQueued(st: seq<Status>, queue: seq<seq<nat>>)
    requires |queue| == |st|
  {
    forall p | 0 <= p < |st| && st[p].Sending? :: Waits(st, queue, p)
  }

  ghost predicate NoDuplicates<T>(q: seq<T>) {
    forall i, j | 0 <= i < j < |q| :: q[i] != q[j]
  }

  /** Receiver r's queue holds exactly the processes blocked sending to r, each once. */
  ghost predicate ExactQueues(k: Kernel)
    requires Shape(k)
  {
    && QueuedAreSenders(k.st, k.queue)
    && SendersAreQueued(k.st, k.queue)
    && (forall r | 0 <= r < |k.st| :: NoDuplicates(k.queue[r]))
  }

  /** Every chain of blocked senders ends at a process that is not sending. */
  ghost predicate Acyclic(st: seq<Status>) {
    forall p | 0 <= p < |st| :: Drains(st, p)
  }

  /** No process waits for something that is already there. */
  ghost predicate NoMissedRendezvous(st: seq<Status>, queue: seq<seq<nat>>, latched: seq<bool>)
    requires |queue| == |latched| == |st|
  {
    forall p | 0 <= p < |st| && st[p].Receiving? ::
      match st[p].peer
      case Any => queue[p] == [] && !latched[p]
      case Interrupt => !latched[p]
      case From(s) => s < |st| && s != p && s !in queue[p]
  }

  /** Holds even when the machine has halted because no process is runnable. */
  ghost predicate Sound(k: Kernel) {
    && Shape(k)
    && (forall p | 0 <= p < |k.st| :: k.prio[p] > 0)
    && (forall p | 0 <= p < |k.st| && k.st[p].Sending? :: k.st[k.st[p].to] != Off)
    && ExactQueues(k)
    && Acyclic(k.st)
    && NoMissedRendezvous(k.st, k.queue, k.latched)
  }

  ghost predicate Inv(k: Kernel) {
    Sound(k) && k.st[k.cur].Ready?
  }

  // ---------------------------------------------------------------- the wait-for graph

  lemma ChainPrefix(st: seq<Status>, path: seq<nat>, n: nat)
    requires IsChain(st, path) && 0 < n <= |path|
    ensures IsChain(st, path[..n])
  {
    forall i | 0 <= i < n - 1 ensures Edge(st, path[..n], i) {
      assert Edge(st, path, i);
    }
  }

  lemma ChainVisits(st: seq<Status>, path: seq<nat>, i: nat)
    requires IsChain(st, path) && i < |path|
    ensures i > 0 ==> Reaches(st, path[0], path[i])
  {
    if i > 0 {
      ChainPrefix(st, path, i + 1);
      assert path[..i + 1][0] == path[0] && path[..i + 1][i] == path[i];
    }
  }

  lemma ChainJoin(st: seq<Status>, a: seq<nat>, b: seq<nat>)
    requires IsChain(st, a) && IsChain(st, b)
    requires st[a[|a| - 1]].Sending? && st[a[|a| - 1]].to == b[0]
    ensures IsChain(st, a + b)
  {
    forall i | 0 <= i < |a + b| - 1 ensures Edge(st, a + b, i) {
      if i < |a| - 1 {
        assert Edge(st, a, i);
      } else if i >= |a| {
        assert Edge(st, b, i - |a|);
      }
    }
  }

  /** A chain along which a status was not changed is still a chain. */
  lemma ChainFrame(st: seq<Status>, p: nat, s: Status, path: seq<nat>)
    requires IsChain(st, path) && p < |st| && p !in path[..|path| - 1]
    ensures IsChain(st[p := s], path)
  {
    var st' := st[p := s];
    forall i | 0 <= i < |path| - 1 ensures Edge(st', path, i) {
      assert Edge(st, path, i) && path[i] == path[..|path| - 1][i];
    }
  }

  /** A process that stops sending, or was not sending, closes no cycle. */
  lemma AcyclicStop(st: seq<Status>, p: nat, s: Status)
    requires Acyclic(st) && p < |st| && !s.Sending?
    ensures Acyclic(st[p := s])
  {
    var st' := st[p := s];
    forall x | 0 <= x < |st| ensures Drains(st', x) {
      assert Drains(st, x);
      var path :| DrainsBy(st, x, path);
      var i := IndexOf(path, p);
      if i < 0 {
        assert p !in path[..|path| - 1];
        ChainFrame(st, p, s, path);
        assert DrainsBy(st', x, path);
      } else {
        ChainPrefix(st, path, i + 1);
        assert path[..i + 1][..i] == path[..i];
        ChainFrame(st, p, s, path[..i + 1]);
        assert DrainsBy(st', x, path[..i + 1]);
      }
    }
  }

  /** Blocking a runnable process on a receiver whose chain does not lead back to it
      closes no cycle: this is what the deadlock test is for. */
  lemma AcyclicBlock(st: seq<Status>, p: nat, to: nat, m: nat)
    requires Acyclic(st) && p < |st| && to < |st| && p != to
    requires !st[p].Sending? && !Reaches(st, to, p)
    ensures Acyclic(st[p := Sending(to, m)])
  {
    var st' := st[p := Sending(to, m)];
    assert Drains(st, to);
    var tail :| DrainsBy(st, to, tail);
    forall i | 0 <= i < |tail| ensures tail[i] != p {
      ChainVisits(st, tail, i);
    }
    ChainFrame(st, p, st'[p], tail);
    forall x | 0 <= x < |st| ensures Drains(st', x) {
      assert Drains(st, x);
      var path :| DrainsBy(st, x, path);
      if p in path {
        var i := IndexOf(path, p);
        assert i < |path| - 1 ==> Edge(st, path, i);
        ChainFrame(st, p, st'[p], path);
        ChainJoin(st', path, tail);
        assert DrainsBy(st', x, path + tail);
      } else {
        ChainFrame(st, p, st'[p], path);
        assert DrainsBy(st', x, path);
      }
    }
  }

  /** There is only one chain from a process: every other one is a prefix of the draining one. */
  lemma {:induction false} ChainUnique(st: seq<Status>, p: nat, path: seq<nat>, other: seq<nat>)
    requires DrainsBy(st, p, path) && IsChain(st, other) && other[0] == p
    ensures |other| <= |path| && other == path[..|other|]
    decreases |other|
  {
    if |other| > 1 {
      var n := |other| - 1;
      ChainPrefix(st, other, n);
      ChainUnique(st, p, path, other[..n]);
      assert other[n - 1] == other[..n][n - 1] == path[n - 1];
      assert Edge(st, other, n - 1) && (n < |path| ==> Edge(st, path, n - 1));
      assert other == other[..n] + [other[n]];
    }
  }

  lemma NotReached(st: seq<Status>, p: nat, path: seq<nat>, target: nat)
    requires DrainsBy(st, p, path) && target !in path
    ensures !Reaches(st, p, target)
  {
    if Reaches(st, p, target) {
      var other :| IsChain(st, other) && |other| >= 2 && other[0] == p && other[|other| - 1] == target;
      ChainUnique(st, p, path, other);
    }
  }

  /** Acyclicity in the usual sense: no process waits for itself, directly or through others. */
  lemma NoCycle(st: seq<Status>, p: nat)
    requires Acyclic(st) && p < |st|
    ensures !Reaches(st, p, p)
  {
    if Reaches(st, p, p) {
      var loop :| IsChain(st, loop) && |loop| >= 2 && loop[0] == p && loop[|loop| - 1] == p;
      assert Drains(st, p);
      var path :| DrainsBy(st, p, path);
      CycleNeverDrains(st, loop, path, 0);
    }
  }

  lemma {:induction false} CycleNeverDrains(st: seq<Status>, loop: seq<nat>, path: seq<nat>, i: nat)
    requires IsChain(st, loop) && |loop| >= 2 && loop[0] == loop[|loop| - 1]
    requires IsChain(st, path) && i < |loop| - 1 && path[0] == loop[i] && !st[path[|path| - 1]].Sending?
    ensures false
    decreases |path|
  {
    assert Edge(st, loop, i);
    if |path| > 1 {
      assert Edge(st, path, 0);
      forall j | 0 <= j < |path| - 2 ensures Edge(st, path[1..], j) {
        assert Edge(st, path, j + 1);
      }
      if i + 1 == |loop| - 1 {
        CycleNeverDrains(st, loop, path[1..], 0);
      } else {
        CycleNeverDrains(st, loop, path[1..], i + 1);
      }
    }
  }

  // ---------------------------------------------------------------- the scheduler's choice

  /** c is the lowest-numbered runnable process with the most time, and that is positive. */
  ghost predicate IsPick(st: seq<Status>, time: seq<int>, c: nat)
    requires |st| == |time|
  {
    && c < |st| && st[c].Ready? && time[c] > 0
    && (forall q | 0 <= q < |st| && st[q].Ready? :: time[q] < time[c] || (time[q] == time[c] && c <= q))
  }

  lemma {:induction false} BestIsPick(st: seq<Status>, time: seq<int>, n: nat)
    requires n <= |st| == |time|
    ensures var b := Best(st, time, n);
            if b >= 0 then IsPick(st[..n], time[..n], b)
            else forall q | 0 <= q < n && st[q].Ready? :: time[q] <= 0
  {
    if n > 0 {
      BestIsPick(st, time, n - 1);
      var b := Best(st, time, n - 1);
      if b >= 0 {
        assert st[..n - 1][b] == st[b] && time[..n - 1][b] == time[b];
        forall q | 0 <= q < n - 1 && st[q].Ready? ensures time[q] < time[b] || (time[q] == time[b] && b <= q) {
          assert st[..n - 1][q] == st[q] && time[..n - 1][q] == time[q];
        }
      }
    }
  }

  /** The scheduler picks the lowest-numbered runnable process with the most ticks, refills
      only when no runnable process has ticks left, and changes nothing else; with positive
      priorities it loops exactly when no process is runnable. */
  lemma RescheduleChoice(k: Kernel)
    requires |k.ticks| == |k.prio| == |k.st| && forall p | 0 <= p < |k.st| :: k.prio[p] > 0
    ensures var (k', outcome) := Reschedule(k);
            var idle := forall q | 0 <= q < |k.st| && k.st[q].Ready? :: k.ticks[q] <= 0;
            && k' == k.(ticks := if idle then k.prio else k.ticks, cur := k'.cur)
            && (outcome == Spin <==> forall q | 0 <= q < |k.st| :: !k.st[q].Ready?)
            && (outcome == Done <==> outcome != Spin)
            && (outcome == Done ==> IsPick(k.st, k'.ticks, k'.cur))
  {
    BestIsPick(k.st, k.ticks, |k.st|);
    BestIsPick(k.st, k.prio, |k.st|);
    assert k.st[..|k.st|] == k.st && k.ticks[..|k.st|] == k.ticks && k.prio[..|k.st|] == k.prio;
  }
}
