/** Exit, wait and fork: zombies, waiting parents, and the statuses that are reported. The
    exit of a process whose children are taken over is stated here as its comment describes it;
    ExitHalts says when the assertion in it lets it get that far. */
module ExitWait {

  datatype Flag = Waiting | Hanging | FreeSlot

  /** The part of a process table entry that matters here. */
  datatype Proc = Proc(flags: set<Flag>, parent: nat, exitStatus: int)

  /** A message that tells a waiting process the number and the status of a child; a wait
      without children is answered with no child. */
  datatype Report = Report(to: nat, pid: nat, status: int) | NoChild(to: nat)

  /** The process table, the statuses of all exits so far, the waits that have been asked for,
      and what has been reported. */
  datatype Mm = Mm(procs: seq<Proc>, exits: seq<(nat, int)>, waits: seq<nat>, reports: seq<Report>)

  predicate IsWaiting(s: Mm, i: nat) { i < |s.procs| && Waiting in s.procs[i].flags }

  predicate IsHanging(s: Mm, i: nat) { i < |s.procs| && Hanging in s.procs[i].flags }

  predicate IsFree(s: Mm, i: nat) { i < |s.procs| && FreeSlot in s.procs[i].flags }

  /** A process that can make a request. */
  predicate IsRunning(s: Mm, i: nat) {
    i < |s.procs| && Waiting !in s.procs[i].flags && Hanging !in s.procs[i].flags && FreeSlot !in s.procs[i].flags
  }

  function Flagged(s: Mm, i: nat, flags: set<Flag>): Mm
    requires i < |s.procs|
  {
    s.(procs := s.procs[i := s.procs[i].(flags := flags)])
  }

  /** cleanup: reports the status of i to its parent and releases its slot. */
  function Cleanup(s: Mm, i: nat): Mm
    requires i < |s.procs|
  {
    Flagged(s, i, {FreeSlot}).(reports := s.reports + [Report(s.procs[i].parent, i, s.procs[i].exitStatus)])
  }

  /** Process w, which waits, is told about i, which hangs. */
  function Delivered(s: Mm, w: nat, i: nat): Mm
    requires w < |s.procs| && i < |s.procs|
  {
    Cleanup(Flagged(s, w, s.procs[w].flags - {Waiting}), i)
  }

  /** Process pid has exited with the status and hangs. */
  function Hung(s: Mm, pid: nat, status: int): (r: Mm)
    requires pid < |s.procs|
    ensures |r.procs| == |s.procs|
  {
    s.(procs := s.procs[pid := s.procs[pid].(exitStatus := status, flags := s.procs[pid].flags + {Hanging})],
       exits := s.exits + [(pid, status)])
  }

  // ---------------------------------------------------------------- the requests

  /** If i is a child of pid, init becomes its parent; a waiting init is told at once about a
      child that hangs. */
  function Adopted(s: Mm, pid: nat, init: nat, i: nat): Mm
    requires i < |s.procs| && init < |s.procs|
  {
    if s.procs[i].parent != pid then s
    else
      var s1 := s.(procs := s.procs[i := s.procs[i].(parent := init)]);
      if IsWaiting(s1, init) && IsHanging(s1, i) then
        Delivered(s1, init, i)
      else s1
  }

  /** Adopted for the first n processes, in order. */
  function AllAdopted(s: Mm, pid: nat, init: nat, n: nat): (r: Mm)
    requires n <= |s.procs| && init < |s.procs|
    ensures |r.procs| == |s.procs|
  {
    if n == 0 then s else Adopted(AllAdopted(s, pid, init, n - 1), pid, init, n - 1)
  }

  /** The first half of an exit: the parent is told, or the process hangs. */
  function Left(s: Mm, pid: nat, status: int): (r: Mm)
    requires pid < |s.procs| && s.procs[pid].parent < |s.procs|
    ensures |r.procs| == |s.procs|
  {
    var p := s.procs[pid].parent;
    if IsWaiting(s, p) then Delivered(Hung(s, pid, status), p, pid) else Hung(s, pid, status)
  }

  function Exit(s: Mm, pid: nat, status: int, init: nat): Mm
    requires pid < |s.procs| && s.procs[pid].parent < |s.procs| && init < |s.procs|
  {
    AllAdopted(Left(s, pid, status), pid, init, |s.procs|)
  }

  /** First hanging child of pid below n; n when there is none. */
  function HangingChild(s: Mm, pid: nat, n: nat): (i: nat)
    requires n <= |s.procs|
    ensures i <= n
    ensures i < n ==> s.procs[i].parent == pid && IsHanging(s, i)
    ensures forall j | 0 <= j < i :: !(s.procs[j].parent == pid && IsHanging(s, j))
  {
    if n == 0 then 0
    else
      var i := HangingChild(s, pid, n - 1);
      if i < n - 1 || (s.procs[i].parent == pid && IsHanging(s, i)) then i else n
  }

  predicate HasChild(s: Mm, pid: nat) { exists i | 0 <= i < |s.procs| :: s.procs[i].parent == pid }

  function Wait(s: Mm, pid: nat): Mm
    requires pid < |s.procs|
  {
    var s1 := s.(waits := s.waits + [pid]);
    var i := HangingChild(s1, pid, |s.procs|);
    if i < |s.procs| then Cleanup(s1, i)
    else if HasChild(s1, pid) then Flagged(s1, pid, s1.procs[pid].flags + {Waiting})
    else s1.(reports := s1.reports + [NoChild(pid)])
  }

  /** First free slot below n; n when there is none. */
  function FirstFreeSlot(s: Mm, n: nat): (i: nat)
    requires n <= |s.procs|
    ensures i <= n
    ensures i < n ==> s.procs[i].flags == {FreeSlot}
    ensures forall j | 0 <= j < i :: s.procs[j].flags != {FreeSlot}
  {
    if n == 0 then 0
    else
      var i := FirstFreeSlot(s, n - 1);
      if i < n - 1 || s.procs[i].flags == {FreeSlot} then i else n
  }

  /** The child is a copy of its parent in the first free slot. */
  function Fork(s: Mm, pid: nat): Mm
    requires pid < |s.procs|
  {
    var i := FirstFreeSlot(s, |s.procs|);
    if i == |s.procs| then s else s.(procs := s.procs[i := s.procs[pid].(parent := pid)])
  }

  datatype Request = DoExit(pid: nat, status: int) | DoWait(pid: nat) | DoFork(pid: nat)

  /** Requests come from running processes, init does not exit, and what exits has a parent in
      the table. */
  predicate Legal(s: Mm, r: Request, init: nat) {
    IsRunning(s, r.pid) && (r.DoExit? ==> r.pid != init && s.procs[r.pid].parent < |s.procs|)
  }

  function Step(s: Mm, r: Request, init: nat): Mm
    requires Legal(s, r, init) && init < |s.procs|
  {
    match r
    case DoExit(pid, status) => Exit(s, pid, status, init)
    case DoWait(pid) => Wait(s, pid)
    case DoFork(pid) => Fork(s, pid)
  }

  // ---------------------------------------------------------------- invariants

  /** No process waits while a child of it hangs. */
  ghost predicate NoMissedExit(s: Mm) {
    forall i: nat, w: nat | IsHanging(s, i) && IsWaiting(s, w) :: s.procs[i].parent != w
  }

  /** A slot is not at the same time free and anything else, or hanging and waiting. */
  ghost predicate FlagsOk(s: Mm) {
    forall i | 0 <= i < |s.procs| :: OneFlag(s.procs[i].flags)
  }

  predicate OneFlag(f: set<Flag>) { f == {} || f == {Waiting} || f == {Hanging} || f == {FreeSlot} }

  /** Init is there, nobody in the table is its parent, and nobody is its own parent. */
  ghost predicate Rooted(s: Mm, init: nat) {
    && init < |s.procs| && !IsFree(s, init) && !IsHanging(s, init) && s.procs[init].parent >= |s.procs|
    && forall i | 0 <= i < |s.procs| :: s.procs[i].parent != i
  }

  /** Init is there; and whoever has a parent in the table has one that is there. */
  ghost predicate Parented(s: Mm, init: nat) {
    && Rooted(s, init)
    && forall i | 0 <= i < |s.procs| && !IsFree(s, i) && s.procs[i].parent < |s.procs| ::
         !IsFree(s, s.procs[i].parent) && !IsHanging(s, s.procs[i].parent)
  }

  /** How often pid has exited with the status. */
  function ExitCount(exits: seq<(nat, int)>, pid: nat, status: int): nat {
    if exits == [] then 0
    else ExitCount(exits[..|exits| - 1], pid, status) + if exits[|exits| - 1] == (pid, status) then 1 else 0
  }

  /** How often an exit of pid with the status has been reported. */
  function ReportCount(reports: seq<Report>, pid: nat, status: int): nat {
    if reports == [] then 0
    else
      var r := reports[|reports| - 1];
      ReportCount(reports[..|reports| - 1], pid, status) + if r.Report? && r.pid == pid && r.status == status then 1 else 0
  }

  /** How often w has asked to wait. */
  function WaitCount(waits: seq<nat>, w: nat): nat {
    if waits == [] then 0 else WaitCount(waits[..|waits| - 1], w) + if waits[|waits| - 1] == w then 1 else 0
  }

  /** How often w has been answered. */
  function AnswerCount(reports: seq<Report>, w: nat): nat {
    if reports == [] then 0
    else AnswerCount(reports[..|reports| - 1], w) + if reports[|reports| - 1].to == w then 1 else 0
  }

  /** Every exit has been reported once, or hangs. */
  ghost predicate ExitsConserved(s: Mm) {
    forall pid: nat, status: int ::
      ExitCount(s.exits, pid, status)
      == ReportCount(s.reports, pid, status) + if IsHanging(s, pid) && s.procs[pid].exitStatus == status then 1 else 0
  }

  /** Every wait has been answered once, or is still waiting. */
  ghost predicate WaitsConserved(s: Mm) {
    forall w: nat :: WaitCount(s.waits, w) == AnswerCount(s.reports, w) + if IsWaiting(s, w) then 1 else 0
  }

  ghost predicate Inv(s: Mm, init: nat) {
    Parented(s, init) && FlagsOk(s) && NoMissedExit(s) && ExitsConserved(s) && WaitsConserved(s)
  }

  // ---------------------------------------------------------------- counting

  lemma ExitAdded(exits: seq<(nat, int)>, e: (nat, int), pid: nat, status: int)
    ensures ExitCount(exits + [e], pid, status) == ExitCount(exits, pid, status) + if e == (pid, status) then 1 else 0
  {
    assert (exits + [e])[..|exits|] == exits;
  }

  lemma ReportAdded(reports: seq<Report>, r: Report, pid: nat, status: int)
    ensures ReportCount(reports + [r], pid, status)
            == ReportCount(reports, pid, status) + if r.Report? && r.pid == pid && r.status == status then 1 else 0
  {
    assert (reports + [r])[..|reports|] == reports;
  }

  lemma AnswerAdded(reports: seq<Report>, r: Report, w: nat)
    ensures AnswerCount(reports + [r], w) == AnswerCount(reports, w) + if r.to == w then 1 else 0
  {
    assert (reports + [r])[..|reports|] == reports;
  }

  lemma WaitAdded(waits: seq<nat>, v: nat, w: nat)
    ensures WaitCount(waits + [v], w) == WaitCount(waits, w) + if v == w then 1 else 0
  {
    assert (waits + [v])[..|waits|] == waits;
  }

  // ---------------------------------------------------------------- conservation

  ghost predicate Conserved(s: Mm) {
    ExitsConserved(s) && WaitsConserved(s)
  }

  lemma HungConserves(s: Mm, pid: nat, status: int)
    requires Conserved(s) && IsRunning(s, pid)
    ensures Conserved(Hung(s, pid, status))
  {
    hide ExitCount, ReportCount, WaitCount, AnswerCount;
    var s' := Hung(s, pid, status);
    forall p: nat, x: int
      ensures ExitCount(s'.exits, p, x) == ReportCount(s'.reports, p, x) + if IsHanging(s', p) && s'.procs[p].exitStatus == x then 1 else 0
    {
      ExitAdded(s.exits, (pid, status), p, x);
    }
    forall w: nat ensures WaitCount(s'.waits, w) == AnswerCount(s'.reports, w) + if IsWaiting(s', w) then 1 else 0 {}
  }

  lemma DeliveredConserves(s: Mm, w: nat, i: nat)
    requires Conserved(s) && FlagsOk(s) && IsWaiting(s, w) && IsHanging(s, i) && s.procs[i].parent == w
    ensures Conserved(Delivered(s, w, i))
  {
    hide ExitCount, ReportCount, WaitCount, AnswerCount;
    assert w != i;
    var s' := Delivered(s, w, i);
    var r := Report(w, i, s.procs[i].exitStatus);
    assert s'.reports == s.reports + [r];
    forall p: nat, x: int
      ensures ExitCount(s'.exits, p, x) == ReportCount(s'.reports, p, x) + if IsHanging(s', p) && s'.procs[p].exitStatus == x then 1 else 0
    {
      ReportAdded(s.reports, r, p, x);
    }
    forall v: nat ensures WaitCount(s'.waits, v) == AnswerCount(s'.reports, v) + if IsWaiting(s', v) then 1 else 0 {
      AnswerAdded(s.reports, r, v);
    }
  }

  lemma WaitConserves(s: Mm, pid: nat)
    requires Conserved(s) && FlagsOk(s) && IsRunning(s, pid)
    ensures Conserved(Wait(s, pid))
  {
    hide ExitCount, ReportCount, WaitCount, AnswerCount, HangingChild;
    var s1 := s.(waits := s.waits + [pid]);
    var i := HangingChild(s1, pid, |s.procs|);
    var s' := Wait(s, pid);
    var r := if i < |s.procs| then Report(pid, i, s.procs[i].exitStatus) else NoChild(pid);
    assert s'.reports == s.reports + [r] || s'.reports == s.reports;
    forall p: nat, x: int
      ensures ExitCount(s'.exits, p, x) == ReportCount(s'.reports, p, x) + if IsHanging(s', p) && s'.procs[p].exitStatus == x then 1 else 0
    {
      ReportAdded(s.reports, r, p, x);
    }
    forall v: nat ensures WaitCount(s'.waits, v) == AnswerCount(s'.reports, v) + if IsWaiting(s', v) then 1 else 0 {
      AnswerAdded(s.reports, r, v);
      WaitAdded(s.waits, pid, v);
    }
  }

  // ---------------------------------------------------------------- exit

  /** As Parented, for all but the children of pid. */
  ghost predicate ParentedBut(s: Mm, init: nat, pid: nat) {
    && Rooted(s, init) && pid != init && pid < |s.procs|
    && forall i | 0 <= i < |s.procs| && !IsFree(s, i) && s.procs[i].parent < |s.procs| && s.procs[i].parent != pid ::
         !IsFree(s, s.procs[i].parent) && !IsHanging(s, s.procs[i].parent)
  }

  ghost predicate Exiting(s: Mm, init: nat, pid: nat) {
    ParentedBut(s, init, pid) && FlagsOk(s) && NoMissedExit(s) && Conserved(s) && !IsWaiting(s, pid)
  }

  lemma DeliveredShape(s: Mm, w: nat, i: nat)
    requires FlagsOk(s) && IsWaiting(s, w) && IsHanging(s, i)
    ensures var s' := Delivered(s, w, i);
            && w != i && |s'.procs| == |s.procs| && s'.procs[w].flags == {} && s'.procs[i].flags == {FreeSlot}
            && (forall j | 0 <= j < |s.procs| :: s'.procs[j].parent == s.procs[j].parent)
            && forall j | 0 <= j < |s.procs| && j != w && j != i :: s'.procs[j] == s.procs[j]
  {
    assert s.procs[w].flags == {Waiting} && s.procs[i].flags == {Hanging};
    assert {Waiting} - {Waiting} == {};
  }

  lemma HungShape(s: Mm, pid: nat, status: int)
    requires FlagsOk(s) && IsRunning(s, pid)
    ensures var s' := Hung(s, pid, status);
            && |s'.procs| == |s.procs| && s'.procs[pid].flags == {Hanging}
            && (forall j | 0 <= j < |s.procs| :: s'.procs[j].parent == s.procs[j].parent)
            && forall j | 0 <= j < |s.procs| && j != pid :: s'.procs[j] == s.procs[j]
  {
    assert s.procs[pid].flags == {};
    assert {} + {Hanging} == {Hanging};
  }

  lemma HungKeeps(s: Mm, pid: nat, status: int, init: nat)
    requires Parented(s, init) && FlagsOk(s) && NoMissedExit(s) && IsRunning(s, pid) && pid != init
    ensures var s' := Hung(s, pid, status);
            && ParentedBut(s', init, pid) && FlagsOk(s') && !IsWaiting(s', pid)
            && forall j: nat, w: nat | IsHanging(s', j) && IsWaiting(s', w) && j != pid :: s'.procs[j].parent != w
  {
    HungShape(s, pid, status);
    hide Hung;
    var s' := Hung(s, pid, status);
    forall j: nat, w: nat | IsHanging(s', j) && IsWaiting(s', w) && j != pid ensures s'.procs[j].parent != w {
      assert IsHanging(s, j) && IsWaiting(s, w);
    }
  }

  /** A hanging process that its parent waits for is delivered to it. */
  lemma DeliveredKeeps(s: Mm, pid: nat, init: nat, w: nat, i: nat)
    requires ParentedBut(s, init, pid) && FlagsOk(s) && !IsWaiting(s, pid)
    requires IsWaiting(s, w) && IsHanging(s, i) && s.procs[i].parent == w && (w == init || i == pid)
    requires forall j: nat, v: nat | IsHanging(s, j) && IsWaiting(s, v) && j != i :: s.procs[j].parent != v
    ensures var s' := Delivered(s, w, i);
            ParentedBut(s', init, pid) && FlagsOk(s') && !IsWaiting(s', pid) && NoMissedExit(s')
  {
    DeliveredShape(s, w, i);
    hide Delivered;
    var s' := Delivered(s, w, i);
    forall j: nat, v: nat | IsHanging(s', j) && IsWaiting(s', v) ensures s'.procs[j].parent != v {
      assert IsHanging(s, j) && IsWaiting(s, v) && j != i;
    }
  }

  lemma LeftExiting(s: Mm, pid: nat, status: int, init: nat)
    requires Inv(s, init) && Legal(s, DoExit(pid, status), init)
    ensures Exiting(Left(s, pid, status), init, pid)
  {
    HungConserves(s, pid, status);
    HungShape(s, pid, status);
    HungKeeps(s, pid, status, init);
    hide Conserved, Hung, Delivered, ParentedBut, FlagsOk, Parented;
    var s1, p := Hung(s, pid, status), s.procs[pid].parent;
    if IsWaiting(s, p) {
      DeliveredConserves(s1, p, pid);
      DeliveredKeeps(s1, pid, init, p, pid);
    }
  }

  /** A child gets init as its parent. */
  lemma Reparented(s: Mm, pid: nat, init: nat, i: nat)
    requires ParentedBut(s, init, pid) && FlagsOk(s) && NoMissedExit(s) && !IsWaiting(s, pid) && i < |s.procs| && s.procs[i].parent == pid
    ensures var s1 := s.(procs := s.procs[i := s.procs[i].(parent := init)]);
            && ParentedBut(s1, init, pid) && FlagsOk(s1) && !IsWaiting(s1, pid)
            && forall j: nat, w: nat | IsHanging(s1, j) && IsWaiting(s1, w) && j != i :: s1.procs[j].parent != w
  {
    var s1 := s.(procs := s.procs[i := s.procs[i].(parent := init)]);
    forall j: nat, w: nat | IsHanging(s1, j) && IsWaiting(s1, w) && j != i ensures s1.procs[j].parent != w {
      assert IsHanging(s, j) && IsWaiting(s, w);
    }
  }

  lemma AdoptedExiting(s: Mm, pid: nat, init: nat, i: nat)
    requires Exiting(s, init, pid) && i < |s.procs|
    ensures Exiting(Adopted(s, pid, init, i), init, pid)
  {
    if s.procs[i].parent == pid {
      var s1 := s.(procs := s.procs[i := s.procs[i].(parent := init)]);
      SameFlags(s, s1);
      Reparented(s, pid, init, i);
      hide Conserved, ParentedBut, FlagsOk, Delivered;
      if IsWaiting(s1, init) && IsHanging(s1, i) {
        DeliveredConserves(s1, init, i);
        DeliveredKeeps(s1, pid, init, init, i);
      }
    }
  }

  lemma AdoptedParents(s: Mm, pid: nat, init: nat, i: nat)
    requires i < |s.procs| && init < |s.procs| && pid != init
    ensures var s' := Adopted(s, pid, init, i);
            && |s'.procs| == |s.procs| && s'.procs[i].parent != pid
            && forall j | 0 <= j < |s.procs| && j != i :: s'.procs[j].parent == s.procs[j].parent
  {}

  lemma SameFlags(s: Mm, s': Mm)
    requires Conserved(s) && |s'.procs| == |s.procs| && s'.exits == s.exits && s'.waits == s.waits && s'.reports == s.reports
    requires forall i | 0 <= i < |s.procs| :: s'.procs[i].flags == s.procs[i].flags && s'.procs[i].exitStatus == s.procs[i].exitStatus
    ensures Conserved(s')
  {
    hide ExitCount, ReportCount, WaitCount, AnswerCount;
  }

  lemma {:induction false} AllAdoptedExiting(s: Mm, pid: nat, init: nat, n: nat)
    requires Exiting(s, init, pid) && n <= |s.procs|
    ensures Exiting(AllAdopted(s, pid, init, n), init, pid)
    ensures forall j | 0 <= j < n :: AllAdopted(s, pid, init, n).procs[j].parent != pid
  {
    hide FlagsOk, NoMissedExit, Conserved, Adopted;
    if n > 0 {
      AllAdoptedExiting(s, pid, init, n - 1);
      AdoptedExiting(AllAdopted(s, pid, init, n - 1), pid, init, n - 1);
      AdoptedParents(AllAdopted(s, pid, init, n - 1), pid, init, n - 1);
    }
  }

  lemma ExitInv(s: Mm, pid: nat, status: int, init: nat)
    requires Inv(s, init) && Legal(s, DoExit(pid, status), init)
    ensures Inv(Exit(s, pid, status, init), init)
  {
    LeftExiting(s, pid, status, init);
    AllAdoptedExiting(Left(s, pid, status), pid, init, |s.procs|);
    hide AllAdopted, Left, FlagsOk, NoMissedExit, ExitsConserved, WaitsConserved;
  }

  // ---------------------------------------------------------------- wait and fork

  lemma WaitInv(s: Mm, pid: nat, init: nat)
    requires Inv(s, init) && IsRunning(s, pid)
    ensures Inv(Wait(s, pid), init)
  {
    WaitConserves(s, pid);
    hide ExitsConserved, WaitsConserved, HangingChild;
    assert s.procs[pid].flags == {};
    assert {} + {Waiting} == {Waiting};
    WaitMissesNothing(s, pid);
    hide NoMissedExit;
  }

  lemma WaitMissesNothing(s: Mm, pid: nat)
    requires NoMissedExit(s) && IsRunning(s, pid)
    ensures NoMissedExit(Wait(s, pid))
  {
    hide HangingChild;
    var s1 := s.(waits := s.waits + [pid]);
    var i := HangingChild(s1, pid, |s.procs|);
    var s' := Wait(s, pid);
    forall j: nat, w: nat | IsHanging(s', j) && IsWaiting(s', w) ensures s'.procs[j].parent != w {
      assert IsHanging(s, j) && IsHanging(s1, j);
      assert w != pid ==> IsWaiting(s, w);
    }
  }

  lemma ForkInv(s: Mm, pid: nat, init: nat)
    requires Inv(s, init) && IsRunning(s, pid)
    ensures Inv(Fork(s, pid), init)
  {
    hide ExitCount, ReportCount, WaitCount, AnswerCount, FirstFreeSlot;
    var i := FirstFreeSlot(s, |s.procs|);
    var s' := Fork(s, pid);
    assert i < |s.procs| ==> IsFree(s, i) && !IsHanging(s, i) && !IsWaiting(s, i);
    assert ExitsConserved(s') by {
      hide WaitsConserved;
    }
    assert WaitsConserved(s') by {
      hide ExitsConserved;
    }
    hide ExitsConserved, WaitsConserved;
  }

  // ---------------------------------------------------------------- runs

  /** Every request keeps the invariant: no exit is missed, every exit is reported exactly once
      or hangs, every wait is answered exactly once or waits. */
  lemma StepInv(s: Mm, r: Request, init: nat)
    requires Inv(s, init) && Legal(s, r, init)
    ensures Inv(Step(s, r, init), init)
  {
    hide Inv, Exit, Wait, Fork;
    assert init < |s.procs| by {
      InitThere(s, init);
    }
    match r {
      case DoExit(pid, status) => ExitInv(s, pid, status, init);
      case DoWait(pid) => WaitInv(s, pid, init);
      case DoFork(pid) => ForkInv(s, pid, init);
    }
  }

  lemma InitThere(s: Mm, init: nat)
    requires Inv(s, init)
    ensures init < |s.procs|
  {}

  ghost predicate LegalRun(s: Mm, rs: seq<Request>, init: nat)
    requires init < |s.procs|
    decreases |rs|
  {
    rs == [] || (Legal(s, rs[0], init) && init < |Step(s, rs[0], init).procs| && LegalRun(Step(s, rs[0], init), rs[1..], init))
  }

  ghost function Exec(s: Mm, rs: seq<Request>, init: nat): Mm
    requires init < |s.procs| && LegalRun(s, rs, init)
    decreases |rs|
  {
    if rs == [] then s else Exec(Step(s, rs[0], init), rs[1..], init)
  }

  /** Every run of requests keeps the invariant. */
  lemma {:induction false} RunInv(s: Mm, rs: seq<Request>, init: nat)
    requires Inv(s, init) && LegalRun(s, rs, init)
    ensures Inv(Exec(s, rs, init), init)
    decreases |rs|
  {
    InitThere(s, init);
    hide Inv, Step, Legal;
    if rs != [] {
      StepInv(s, rs[0], init);
      RunInv(Step(s, rs[0], init), rs[1..], init);
    }
  }

  /** At the start nobody has exited and nobody waits. */
  ghost predicate Start(s: Mm, init: nat) {
    && Rooted(s, init) && s.exits == [] && s.waits == [] && s.reports == []
    && (forall i | 0 <= i < |s.procs| :: s.procs[i].flags == {} || s.procs[i].flags == {FreeSlot})
    && forall i | 0 <= i < |s.procs| && !IsFree(s, i) && s.procs[i].parent < |s.procs| :: !IsFree(s, s.procs[i].parent)
  }

  lemma StartInv(s: Mm, init: nat)
    requires Start(s, init)
    ensures Inv(s, init)
  {}

  /** Every run from the start leads to a state that the invariant holds of. */
  lemma {:induction false} ReachableInv(s: Mm, rs: seq<Request>, init: nat)
    requires Start(s, init) && LegalRun(s, rs, init)
    ensures Inv(Exec(s, rs, init), init)
  {
    StartInv(s, init);
    RunInv(s, rs, init);
  }

  // ---------------------------------------------------------------- who is told what

  /** A report made by the request goes to the process that is the parent then, and tells the
      status of a child that has just exited or hangs. */
  ghost predicate Proper(s: Mm, r: Request, init: nat, m: Report) {
    if m.NoChild? then r.DoWait? && m.to == r.pid && !HasChild(s, m.to)
    else
      m.pid < |s.procs| && ProperReport(s, r, init, m.to, m.pid, m.status)
  }

  ghost predicate ProperReport(s: Mm, r: Request, init: nat, to: nat, i: nat, status: int)
    requires i < |s.procs|
  {
    if r.DoExit? && i == r.pid then to == s.procs[i].parent && status == r.status && IsWaiting(s, to)
    else
      && IsHanging(s, i) && status == s.procs[i].exitStatus
      && ((r.DoWait? && to == r.pid && s.procs[i].parent == to)
          || (r.DoExit? && to == init && s.procs[i].parent == r.pid && IsWaiting(s, init)))
  }

  /** The state s' has the reports of s and then proper ones. */
  ghost predicate Added(s: Mm, r: Request, init: nat, s': Mm) {
    && |s.reports| <= |s'.reports| && s'.reports[..|s.reports|] == s.reports
    && forall k | |s.reports| <= k < |s'.reports| :: Proper(s, r, init, s'.reports[k])
  }

  /** While children are taken over, those not looked at yet are as they were. */
  ghost predicate Pending(s: Mm, pid: nat, init: nat, n: nat, s': Mm) {
    && |s'.procs| == |s.procs|
    && (IsWaiting(s', init) ==> IsWaiting(s, init))
    && forall j: nat | n <= j < |s.procs| && j != pid ::
         && s'.procs[j].parent == s.procs[j].parent && s'.procs[j].exitStatus == s.procs[j].exitStatus
         && (IsHanging(s', j) ==> IsHanging(s, j))
  }

  lemma LeftReports(s: Mm, pid: nat, status: int, init: nat)
    requires Legal(s, DoExit(pid, status), init) && init < |s.procs|
    ensures var s' := Left(s, pid, status);
            Added(s, DoExit(pid, status), init, s') && Pending(s, pid, init, 0, s') && s'.procs[pid].parent == s.procs[pid].parent
  {}

  lemma {:induction false} AdoptedReports(s: Mm, s0: Mm, pid: nat, status: int, init: nat, n: nat)
    requires Legal(s, DoExit(pid, status), init) && init < |s.procs| && n <= |s.procs| && s.procs[pid].parent != pid
    requires Added(s, DoExit(pid, status), init, s0) && Pending(s, pid, init, 0, s0) && s0.procs[pid].parent == s.procs[pid].parent
    ensures |s0.procs| == |s.procs|
    ensures var s' := AllAdopted(s0, pid, init, n);
            && Added(s, DoExit(pid, status), init, s') && Pending(s, pid, init, n, s')
            && s'.procs[pid].parent == s.procs[pid].parent
  {
    assert |s0.procs| == |s.procs|;
    hide Pending, Added, Adopted, Legal;
    if n > 0 {
      AdoptedReports(s, s0, pid, status, init, n - 1);
      AdoptedOne(s, pid, status, init, AllAdopted(s0, pid, init, n - 1), n - 1);
    }
  }

  lemma AdoptedOne(s: Mm, pid: nat, status: int, init: nat, s1: Mm, i: nat)
    requires Legal(s, DoExit(pid, status), init) && init < |s.procs| && i < |s.procs| && s.procs[pid].parent != pid
    requires Added(s, DoExit(pid, status), init, s1) && Pending(s, pid, init, i, s1) && s1.procs[pid].parent == s.procs[pid].parent
    ensures var s' := Adopted(s1, pid, init, i);
            && Added(s, DoExit(pid, status), init, s') && Pending(s, pid, init, i + 1, s')
            && s'.procs[pid].parent == s.procs[pid].parent
  {}

  /** Every report goes to the parent of that moment. */
  lemma StepReports(s: Mm, r: Request, init: nat)
    requires Inv(s, init) && Legal(s, r, init) && init < |s.procs|
    ensures Added(s, r, init, Step(s, r, init))
  {
    match r {
      case DoExit(pid, status) =>
        LeftReports(s, pid, status, init);
        AdoptedReports(s, Left(s, pid, status), pid, status, init, |s.procs|);
      case DoWait(pid) =>
      case DoFork(pid) =>
    }
  }

  /** A fork takes a slot that is free, never one that hangs. */
  lemma ForkTakesFree(s: Mm, pid: nat, i: nat)
    requires IsRunning(s, pid) && i < |s.procs| && Fork(s, pid).procs[i] != s.procs[i]
    ensures s.procs[i].flags == {FreeSlot} && Fork(s, pid).procs[i].parent == pid
  {}

  lemma {:induction false} HangingChildAt(s: Mm, pid: nat, i: nat, n: nat)
    requires i < n <= |s.procs| && s.procs[i].parent == pid && IsHanging(s, i)
    requires forall j | 0 <= j < i :: !(s.procs[j].parent == pid && IsHanging(s, j))
    ensures HangingChild(s, pid, n) == i
  {
    if n > i + 1 {
      HangingChildAt(s, pid, i, n - 1);
    }
  }

  lemma HangingChildNone(s: Mm, pid: nat, n: nat)
    requires n <= |s.procs| && forall j | 0 <= j < n :: !(s.procs[j].parent == pid && IsHanging(s, j))
    ensures HangingChild(s, pid, n) == n
  {}

  lemma {:induction false} FirstFreeSlotAt(s: Mm, i: nat, n: nat)
    requires i <= n <= |s.procs| && (i < n ==> s.procs[i].flags == {FreeSlot})
    requires forall j | 0 <= j < i :: s.procs[j].flags != {FreeSlot}
    ensures FirstFreeSlot(s, n) == i
  {
    if n > i {
      FirstFreeSlotAt(s, i, n - 1);
    }
  }
}
